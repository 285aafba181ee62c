/** The assembler actor itself: the same loops and in-place updates as the source, proved to
    compute the step functions (tondb-scanner/src/TraceAssembler.cpp). */
module TraceAssembly {
  import opened Wrappers
  import opened TraceModel
  import opened TraceStep
  import opened TraceBlock
  import opened AssemblyQueue

  // A pending trace lives on the heap and is shared by every pointer to it.
  class TraceCell {
    var trace: Trace

    constructor (t: Trace)
      ensures trace == t
    {
      trace := t;
    }
  }

  class TraceAssembler {
    var expectedSeqno: nat
    var queue: map<nat, ParsedBlock>
    var pendingTraces: map<Hash, TraceCell>
    var pendingEdges: map<Hash, Edge>
    // Promises answered so far, in order.
    var resolved: seq<(nat, BlockResult)>

    ghost function Traces(): map<Hash, Trace>
      reads this, pendingTraces.Values
    {
      map id | id in pendingTraces :: pendingTraces[id].trace
    }

    ghost function State(): Assembler
      reads this, pendingTraces.Values
    {
      Assembler(Traces(), pendingEdges)
    }

    ghost function View(): Queue
      reads this, pendingTraces.Values
    {
      Queue(expectedSeqno, queue, State(), resolved)
    }

    // Both maps are keyed consistently; in particular no two entries share a cell.
    ghost predicate Valid()
      reads this, pendingTraces.Values
    {
      Keyed(Traces(), pendingEdges)
    }

    constructor ()
      ensures Valid() && View() == Queue(0, map[], EMPTY, [])
    {
      expectedSeqno, queue := 0, map[];
      pendingTraces, pendingEdges, resolved := map[], map[], [];
    }

    ghost function WorkWith(completed: seq<Edge>, updated: set<Hash>, added: set<Hash>): Work
      reads this, pendingTraces.Values
    {
      Work(Traces(), pendingEdges, completed, updated, added)
    }

    // Close the pending edge of the in-message and join its trace.
    method JoinPending(seqno: nat, tx: Transaction, m: Message, completed: seq<Edge>, updated: set<Hash>, added: set<Hash>)
      returns (cell: TraceCell, completed': seq<Edge>, updated': set<Hash>, added': set<Hash>)
      requires Valid() && m.hash in pendingEdges
      modifies this`pendingTraces, this`pendingEdges, pendingTraces.Values
      ensures Valid() && fresh(pendingTraces.Values - old(pendingTraces.Values))
      ensures WorkWith(completed', updated', added') == JoinTrace(old(WorkWith(completed, updated, added)), seqno, tx, m)
      ensures cell.trace.traceId == ClosedEdge(old(WorkWith(completed, updated, added)), tx, m).traceId
      ensures cell.trace.traceId in pendingTraces && pendingTraces[cell.trace.traceId] == cell
    {
      ghost var w := WorkWith(completed, updated, added);
      var edge := pendingEdges[m.hash].(rightTx := Some(tx.hash), incomplete := false, broken := false);
      if edge.traceId !in pendingTraces {
        cell := new TraceCell(NewTrace(seqno, tx).(edges := 1, state := Broken));
        edge := edge.(traceId := tx.hash);
        pendingTraces := pendingTraces[tx.hash := cell];
      } else {
        cell := pendingTraces[edge.traceId];
      }
      completed' := completed + [edge];
      pendingEdges := pendingEdges - {m.hash};
      added' := added - {edge.msgHash};
      cell.trace := cell.trace.(pendingEdges := Decrement(cell.trace.pendingEdges),
                                edges := cell.trace.edges + 1, nodes := cell.trace.nodes + 1);
      updated' := updated + {cell.trace.traceId};
      assert Traces() == JoinTrace(w, seqno, tx, m).traces;
    }

    // Open a trace for a transaction whose in-message no pending edge announces.
    method StartPending(seqno: nat, tx: Transaction, completed: seq<Edge>, updated: set<Hash>, added: set<Hash>)
      returns (cell: TraceCell, completed': seq<Edge>, updated': set<Hash>, added': set<Hash>)
      requires Valid()
      modifies this`pendingTraces, this`pendingEdges
      ensures Valid() && fresh(pendingTraces.Values - old(pendingTraces.Values))
      ensures WorkWith(completed', updated', added') == StartTrace(old(WorkWith(completed, updated, added)), seqno, tx)
      ensures cell.trace.traceId == tx.hash
      ensures tx.hash in pendingTraces && pendingTraces[tx.hash] == cell
    {
      ghost var w := WorkWith(completed, updated, added);
      var trace := NewTrace(seqno, tx);
      completed', added' := completed, added;
      if tx.inMsg.Some? {
        var edge := RootEdge(tx, tx.inMsg.value);
        trace := WithEdge(trace, edge);
        if edge.broken {
          trace := trace.(state := Broken);
        }
        if edge.incomplete {
          pendingEdges := pendingEdges[edge.msgHash := edge];
          added' := added + {edge.msgHash};
        } else {
          completed' := completed + [edge];
        }
      }
      cell := new TraceCell(trace);
      pendingTraces := pendingTraces[tx.hash := cell];
      updated' := updated + {tx.hash};
      assert Traces() == w.traces[tx.hash := trace];
    }

    // Record one out-message of a transaction of the trace in `cell`.
    method EmitOutMessage(tx: Transaction, m: Message, cell: TraceCell, completed: seq<Edge>, ghost updated: set<Hash>, added: set<Hash>)
      returns (completed': seq<Edge>, added': set<Hash>)
      requires Valid() && cell.trace.traceId in pendingTraces && pendingTraces[cell.trace.traceId] == cell
      modifies this`pendingEdges, cell
      ensures Valid() && cell.trace.traceId == old(cell.trace.traceId)
      ensures WorkWith(completed', updated, added') ==
              EmitOne(old(WorkWith(completed, updated, added)), old(cell.trace.traceId), tx, m)
    {
      ghost var w, id := WorkWith(completed, updated, added), cell.trace.traceId;
      completed', added' := completed, added;
      var edge := Edge(cell.trace.traceId, m.hash, CreatedLt(m), Some(tx.hash), None, Ord, true, false);
      if m.destination.None? {
        edge := edge.(kind := Logs, incomplete := false, broken := false);
      }
      assert edge == OutEdge(id, tx, m);
      cell.trace := WithEdge(cell.trace, edge);
      if edge.incomplete {
        pendingEdges := pendingEdges[edge.msgHash := edge];
        added' := added + {edge.msgHash};
      } else {
        completed' := completed + [edge];
      }
      assert Traces() == w.traces[id := WithEdge(w.traces[id], edge)];
    }

    method EmitOutMessages(tx: Transaction, cell: TraceCell, completed: seq<Edge>, ghost updated: set<Hash>, added: set<Hash>)
      returns (completed': seq<Edge>, added': set<Hash>)
      requires Valid() && cell.trace.traceId in pendingTraces && pendingTraces[cell.trace.traceId] == cell
      modifies this`pendingEdges, cell
      ensures Valid()
      ensures WorkWith(completed', updated, added') ==
              EmitOuts(old(WorkWith(completed, updated, added)), old(cell.trace.traceId), tx, |tx.outMsgs|)
    {
      hide EmitOne, Keyed;
      ghost var w, id := WorkWith(completed, updated, added), cell.trace.traceId;
      completed', added' := completed, added;
      for k := 0 to |tx.outMsgs|
        invariant cell.trace.traceId == id && Valid()
        invariant WorkWith(completed', updated, added') == EmitOuts(w, id, tx, k)
      {
        completed', added' := EmitOutMessage(tx, tx.outMsgs[k], cell, completed', updated, added');
      }
    }

    // Stretch the trace to the transaction's seqno, logical time and time.
    method ExtendTrace(cell: TraceCell, seqno: nat, tx: Transaction)
      requires Valid() && cell.trace.traceId in pendingTraces && pendingTraces[cell.trace.traceId] == cell
      modifies cell
      ensures Valid() && cell.trace.traceId == old(cell.trace.traceId)
      ensures Traces() == old(Traces())[cell.trace.traceId := Extended(old(cell.trace), seqno, tx)]
    {
      cell.trace := Extended(cell.trace, seqno, tx);
    }

    /** One transaction changes the pending maps exactly as the step function says. */
    method ProcessTransaction(seqno: nat, tx: Transaction, completed: seq<Edge>, updated: set<Hash>, added: set<Hash>)
      returns (traceId: Hash, completed': seq<Edge>, updated': set<Hash>, added': set<Hash>)
      requires Valid()
      modifies this`pendingTraces, this`pendingEdges, pendingTraces.Values
      ensures Valid() && fresh(pendingTraces.Values - old(pendingTraces.Values))
      ensures WorkWith(completed', updated', added') == Step(old(WorkWith(completed, updated, added)), seqno, tx)
      ensures traceId == TraceIdFor(old(WorkWith(completed, updated, added)), tx)
    {
      hide JoinTrace, StartTrace, ClosedEdge, EmitOuts, Extended, Keyed;
      ghost var w := WorkWith(completed, updated, added);
      var cell: TraceCell;
      if tx.inMsg.Some? && tx.inMsg.value.hash in pendingEdges {
        cell, completed', updated', added' := JoinPending(seqno, tx, tx.inMsg.value, completed, updated, added);
      } else {
        cell, completed', updated', added' := StartPending(seqno, tx, completed, updated, added);
      }
      ghost var a := WorkWith(completed', updated', added');
      assert a == AttachIn(w, seqno, tx);
      traceId := cell.trace.traceId;
      ExtendTrace(cell, seqno, tx);
      assert WorkWith(completed', updated', added') == Touch(w, seqno, tx);
      completed', added' := EmitOutMessages(tx, cell, completed', updated', added');
    }

    // A touched trace without pending edges is finished and leaves the pending map.
    method FinishTrace(id: Hash) returns (t: Trace)
      requires id in pendingTraces && pendingTraces[id].trace.traceId == id
      modifies this`pendingTraces, pendingTraces[id]
      ensures t == Finalised(old(pendingTraces[id].trace))
      ensures if old(pendingTraces[id].trace.pendingEdges) == 0 then pendingTraces == old(pendingTraces) - {id}
              else pendingTraces == old(pendingTraces) && pendingTraces[id].trace == old(pendingTraces[id].trace)
    {
      var cell := pendingTraces[id];
      if cell.trace.pendingEdges == 0 {
        if cell.trace.state != Broken {
          cell.trace := cell.trace.(state := Complete);
        }
        pendingTraces := pendingTraces - {cell.trace.traceId};
      }
      t := cell.trace;
    }

    method CollectTouched(ghost w: Work, updated: set<Hash>) returns (report: map<Hash, EmittedTrace>)
      requires Valid() && Reportable(w) && w.updated == updated
      requires Traces() == w.traces && pendingEdges == w.edges
      modifies this`pendingTraces, pendingTraces.Values
      ensures pendingTraces.Values <= old(pendingTraces.Values)
      ensures State() == Finish(w)
      ensures report.Keys == updated
      ensures forall id :: id in report ==> report[id] == EmittedTrace(Finalised(w.traces[id]), [], {})
    {
      hide Finalised, Unfinished, Headers;
      report := map[];
      var rest := updated;
      ghost var cells, done := pendingTraces, {};
      NothingDone(cells, w.traces);
      while rest != {}
        invariant rest !! done && rest + done == updated
        invariant pendingTraces == Unfinished(cells, w.traces, done)
        invariant forall id :: id in pendingTraces ==> id in w.traces && pendingTraces[id].trace == w.traces[id]
        invariant report == Headers(w.traces, done)
      {
        var id :| id in rest;
        OneMoreDone(cells, w.traces, done, id);
        assert forall other :: other in pendingTraces && other != id ==> pendingTraces[other] != pendingTraces[id];
        var t := FinishTrace(id);
        report := report[id := EmittedTrace(t, [], {})];
        rest, done := rest - {id}, done + {id};
      }
      AllDone(this, cells, w);
    }

    /** One block: the pending maps and what is reported are those of the block function. */
    method ProcessBlock(seqno: nat, block: ParsedBlock) returns (r: BlockResult)
      requires Valid()
      modifies this`pendingTraces, this`pendingEdges, pendingTraces.Values
      ensures Valid() && fresh(pendingTraces.Values - old(pendingTraces.Values))
      ensures (State(), r) == TraceBlock.ProcessBlock(old(State()), seqno, block)
    {
      hide Step, Keyed, Finish, Report, Reportable, SortTxs, Flatten, Sorted;
      ghost var a := State();
      var all := CollectTransactions(block);
      var txs := SortTxs(all);
      var ids: seq<Hash>, completed: seq<Edge>, updated: set<Hash>, added: set<Hash> := [], [], {}, {};
      for i := 0 to |txs|
        invariant Valid() && fresh(pendingTraces.Values - old(pendingTraces.Values))
        invariant WorkWith(completed, updated, added) == StepAll(Begin(a), seqno, txs[..i])
        invariant ids == Assigned(Begin(a), seqno, txs[..i])
      {
        assert txs[..i + 1][..i] == txs[..i];
        var id;
        id, completed, updated, added := ProcessTransaction(seqno, txs[i], completed, updated, added);
        ids := ids + [id];
      }
      assert txs[..|txs|] == txs;
      ghost var w := WorkWith(completed, updated, added);
      StepAllKeepsReportable(Begin(a), seqno, txs);
      var edges := pendingEdges;
      var report := CollectTouched(w, updated);
      report := AttachReported(w, completed, added, edges, report);
      r := BlockResult(ids, report);
      assert State() == TraceBlock.ProcessBlock(a, seqno, block).0;
    }

    method ProcessNext()
      requires Valid() && expectedSeqno in queue
      modifies this, pendingTraces.Values
      ensures Valid() && fresh(pendingTraces.Values - old(pendingTraces.Values))
      ensures View() == Advance(old(View()))
    {
      hide TraceBlock.ProcessBlock, Keyed;
      var r := ProcessBlock(expectedSeqno, queue[expectedSeqno]);
      ghost var traces := Traces();
      resolved := resolved + [(expectedSeqno, r)];
      queue := queue - {expectedSeqno};
      expectedSeqno := expectedSeqno + 1;
      assert Traces() == traces;
    }

    // Process waiting blocks as long as the expected one is among them.
    method ProcessQueue()
      requires Valid()
      modifies this, pendingTraces.Values
      ensures Valid() && fresh(pendingTraces.Values - old(pendingTraces.Values))
      ensures View() == Drain(old(View()))
    {
      hide Keyed, TraceBlock.ProcessBlock;
      ghost var v := View();
      while expectedSeqno in queue
        invariant Valid() && fresh(pendingTraces.Values - old(pendingTraces.Values))
        invariant Drain(View()) == Drain(v)
        decreases |queue|
      {
        Shrinks(queue, expectedSeqno);
        ProcessNext();
      }
    }

    /** A block handed in: fatal below the expected seqno, otherwise queued and processed. */
    method Assemble(seqno: nat, block: ParsedBlock) returns (fatal: bool)
      requires Valid()
      modifies this, pendingTraces.Values
      ensures Valid() && fresh(pendingTraces.Values - old(pendingTraces.Values))
      ensures fatal == AssemblyQueue.Deliver(old(View()), (seqno, block)).Err?
      ensures fatal ==> View() == old(View())
      ensures !fatal ==> Ok(View()) == AssemblyQueue.Deliver(old(View()), (seqno, block))
    {
      hide Drain, Keyed;
      if seqno < expectedSeqno {
        return true;
      }
      ghost var before := View();
      if seqno !in queue {
        queue := queue[seqno := block];
      }
      assert View() == if seqno in before.waiting then before else before.(waiting := before.waiting[seqno := block]);
      ProcessQueue();
      fatal := false;
    }
  }

  /** The transactions of all shard blocks, one after the other. */
  method CollectTransactions(block: ParsedBlock) returns (txs: seq<Transaction>)
    ensures txs == Flatten(block.blocks)
  {
    txs := [];
    for j := 0 to |block.blocks|
      invariant txs == Flatten(block.blocks[..j])
    {
      ghost var before := txs;
      for i := 0 to |block.blocks[j]|
        invariant txs == before + block.blocks[j][..i]
      {
        txs := txs + [block.blocks[j][i]];
      }
      assert block.blocks[j][..|block.blocks[j]|] == block.blocks[j];
      assert block.blocks[..j + 1][..j] == block.blocks[..j];
    }
    assert block.blocks[..|block.blocks|] == block.blocks;
  }

  // The cells left once the finished ones of `done` are gone.
  ghost function Unfinished(cells: map<Hash, TraceCell>, traces: map<Hash, Trace>, done: set<Hash>): map<Hash, TraceCell>
    requires cells.Keys == traces.Keys
  {
    map id | id in cells && (id in done ==> traces[id].pendingEdges != 0) :: cells[id]
  }

  ghost function Headers(traces: map<Hash, Trace>, done: set<Hash>): map<Hash, EmittedTrace>
    requires done <= traces.Keys
  {
    map id | id in done :: EmittedTrace(Finalised(traces[id]), [], {})
  }

  lemma NothingDone(cells: map<Hash, TraceCell>, traces: map<Hash, Trace>)
    requires cells.Keys == traces.Keys
    ensures Unfinished(cells, traces, {}) == cells && Headers(traces, {}) == map[]
  {
  }

  lemma OneMoreDone(cells: map<Hash, TraceCell>, traces: map<Hash, Trace>, done: set<Hash>, id: Hash)
    requires cells.Keys == traces.Keys && done <= traces.Keys && id in cells && id !in done
    ensures id in Unfinished(cells, traces, done) && Unfinished(cells, traces, done)[id] == cells[id]
    ensures Unfinished(cells, traces, done + {id}) ==
            if traces[id].pendingEdges == 0 then Unfinished(cells, traces, done) - {id} else Unfinished(cells, traces, done)
    ensures Headers(traces, done + {id}) == Headers(traces, done)[id := EmittedTrace(Finalised(traces[id]), [], {})]
  {
    hide Finalised;
  }

  lemma AllDone(t: TraceAssembler, cells: map<Hash, TraceCell>, w: Work)
    requires Reportable(w) && cells.Keys == w.traces.Keys
    requires t.pendingTraces == Unfinished(cells, w.traces, w.updated)
    requires forall id :: id in t.pendingTraces ==> t.pendingTraces[id].trace == w.traces[id]
    ensures t.Traces() == Finish(w).traces
    ensures Unfinished(cells, w.traces, w.updated).Values <= cells.Values
    ensures Headers(w.traces, w.updated).Keys == w.updated
    ensures forall id :: id in w.updated ==> Headers(w.traces, w.updated)[id] == EmittedTrace(Finalised(w.traces[id]), [], {})
  {
  }

  // Hand every closed edge, then every edge left open, to its trace.
  method AttachClosed(ghost w: Work, completed: seq<Edge>, report: map<Hash, EmittedTrace>) returns (r: map<Hash, EmittedTrace>)
    requires Reportable(w) && completed == w.completed && report.Keys == w.updated
    requires forall id :: id in report ==> report[id] == EmittedTrace(Finalised(w.traces[id]), [], {})
    ensures r.Keys == w.updated
    ensures forall id :: id in r ==> r[id] == EmittedTrace(Finalised(w.traces[id]), OfTrace(completed, id), {})
  {
    r := report;
    for i := 0 to |completed|
      invariant r.Keys == w.updated
      invariant forall id :: id in r ==> r[id] == EmittedTrace(Finalised(w.traces[id]), OfTrace(completed[..i], id), {})
    {
      var e := completed[i];
      assert completed[..i + 1][..i] == completed[..i];
      r := r[e.traceId := r[e.traceId].(completed := r[e.traceId].completed + [e])];
    }
    assert completed[..|completed|] == completed;
  }

  method AttachReported(ghost w: Work, completed: seq<Edge>, added: set<Hash>, edges: map<Hash, Edge>,
                        report: map<Hash, EmittedTrace>)
    returns (r: map<Hash, EmittedTrace>)
    requires Reportable(w) && completed == w.completed && added == w.added && edges == w.edges
    requires report.Keys == w.updated
    requires forall id :: id in report ==> report[id] == EmittedTrace(Finalised(w.traces[id]), [], {})
    ensures r == Report(w)
  {
    hide OfTrace, Finalised, OpenAmong;
    r := AttachClosed(w, completed, report);
    var rest := added;
    OpenAmongNone(edges);
    assert added - rest == {};
    while rest != {}
      invariant rest <= added && r.Keys == w.updated
      invariant forall id :: id in r ==>
        r[id] == EmittedTrace(Finalised(w.traces[id]), OfTrace(completed, id), OpenAmong(edges, added - rest, id))
    {
      var m :| m in rest;
      var e := edges[m];
      OpenAmongMore(edges, added - rest, m);
      assert added - (rest - {m}) == (added - rest) + {m};
      r := r[e.traceId := r[e.traceId].(open := r[e.traceId].open + {e})];
      rest := rest - {m};
    }
    assert added - rest == added;
  }

  lemma OpenAmongNone(edges: map<Hash, Edge>)
    ensures forall id :: OpenAmong(edges, {}, id) == {}
  {
  }

  lemma OpenAmongMore(edges: map<Hash, Edge>, hashes: set<Hash>, m: Hash)
    requires hashes <= edges.Keys && m in edges
    ensures forall id :: OpenAmong(edges, hashes + {m}, id) ==
                         if edges[m].traceId == id then OpenAmong(edges, hashes, id) + {edges[m]} else OpenAmong(edges, hashes, id)
  {
  }
}
