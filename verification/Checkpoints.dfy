/** Checkpoints of the assembler on disk: saving, choosing one to restore, deleting old ones,
    and what a run interrupted by restarts amounts to (tondb-scanner/src/TraceAssembler.cpp). */
module Checkpoints {
  import opened Wrappers
  import opened Sets
  import opened TraceModel
  import opened TraceStep
  import opened TraceBlock
  import opened TraceRun

  // A state file, listed under the number its name parses to.
  datatype File = Readable(state: Assembler) | Unreadable

  type Dir = map<nat, File>

  function NotAbove(dir: Dir, seqno: nat): set<nat> {
    set k | k in dir && k <= seqno
  }

  function Usable(dir: Dir, seqno: nat): set<nat> {
    set k | k in dir && k <= seqno && dir[k].Readable?
  }

  // The greatest readable checkpoint not above the request.
  function Restore(dir: Dir, request: nat): Option<(nat, Assembler)> {
    if Usable(dir, request) == {} then None
    else
      var k := Greatest(Usable(dir, request));
      Some((k, dir[k].state))
  }

  // The files not above `current` that are greater than `k`.
  function Newer(dir: Dir, current: nat, k: nat): set<nat> {
    set x | x in NotAbove(dir, current) && k < x
  }

  predicate Kept(dir: Dir, current: nat, keep: nat, k: nat) {
    k in NotAbove(dir, current) && |Newer(dir, current, k)| < keep
  }

  // The `keep` greatest files not above `current`.
  function Collect(dir: Dir, current: nat, keep: nat): Dir {
    map k | k in dir && Kept(dir, current, keep, k) :: dir[k]
  }

  lemma CollectIs(dir: Dir, current: nat, keep: nat, files: Dir)
    requires forall k :: k in files <==> k in dir && Kept(dir, current, keep, k)
    requires forall k :: k in files ==> k in dir && files[k] == dir[k]
    ensures files == Collect(dir, current, keep)
  {
    hide Kept;
    assert files.Keys == Collect(dir, current, keep).Keys;
  }

  // `rest` is what a walk from the greatest file down has still ahead.
  ghost predicate Descending(dir: Dir, rest: set<nat>) {
    forall x, y :: x in rest && y in dir && y !in rest ==> x < y
  }

  lemma DescendingStart(dir: Dir)
    ensures Descending(dir, dir.Keys)
  {
  }

  lemma SeenSoFar(dir: Dir, current: nat, rest: set<nat>, k: nat)
    requires rest <= dir.Keys && Descending(dir, rest) && k in rest && forall x :: x in rest ==> x <= k
    ensures Newer(dir, current, k) == NotAbove(dir, current) - rest
    ensures Descending(dir, rest - {k})
  {
  }

  // ---- The directory, as the actor uses it ----

  class StateDir {
    var files: Dir

    constructor (dir: Dir)
      ensures files == dir
    {
      files := dir;
    }

    /** The file is what a request for its seqno restores; the other files stay. */
    method SaveState(seqno: nat, state: Assembler)
      modifies this
      ensures Restore(files, seqno) == Some((seqno, state))
      ensures files == old(files)[seqno := Readable(state)]
    {
      SaveThenRestore(files, seqno, state, seqno);
      files := files[seqno := Readable(state)];
    }

    /** Walk the files from the greatest down and take the first usable one. */
    method RestoreState(request: nat) returns (r: Option<(nat, Assembler)>)
      ensures r == Restore(files, request)
      ensures r.None? <==> forall k :: k in files && k <= request ==> files[k].Unreadable?
      ensures r.Some? ==>
                && r.value.0 in files && r.value.0 <= request && files[r.value.0] == Readable(r.value.1)
                && forall k :: k in files && r.value.0 < k <= request ==> files[k].Unreadable?
    {
      var rest := files.Keys;
      while rest != {}
        invariant rest <= files.Keys
        invariant Usable(files, request) <= rest
        invariant forall k :: k in files && k !in rest && k <= request ==> files[k].Unreadable?
      {
        var k := Greatest(rest);
        if k <= request && files[k].Readable? {
          assert k in Usable(files, request);
          assert Greatest(Usable(files, request)) == k;
          return Some((k, files[k].state));
        }
        rest := rest - {k};
      }
      return None;
    }

    /** Walk the files from the greatest down, deleting those above the current seqno and all
        but the first `keep` others. */
    method GcStates(current: nat, keep: nat)
      modifies this
      ensures files == Collect(old(files), current, keep)
    {
      hide Descending, Newer;
      ghost var dir := files;
      var rest := files.Keys;
      var count := 0;
      ghost var seen := {};
      assert Descending(dir, rest) by { DescendingStart(dir); }
      while rest != {}
        invariant rest <= dir.Keys && seen == NotAbove(dir, current) - rest
        invariant Descending(dir, rest)
        invariant count == if |seen| < keep then |seen| else keep
        invariant forall k :: k in files <==> k in rest || (k in dir && k !in rest && Kept(dir, current, keep, k))
        invariant forall k :: k in files ==> k in dir && files[k] == dir[k]
      {
        var k := Greatest(rest);
        SeenSoFar(dir, current, rest, k);
        if k > current {
          files := files - {k};
        } else if count >= keep {
          files := files - {k};
        } else {
          count := count + 1;
        }
        ghost var after := NotAbove(dir, current) - (rest - {k});
        assert after == if k <= current then seen + {k} else seen;
        seen := after;
        rest := rest - {k};
      }
      CollectIs(dir, current, keep, files);
    }
  }

  // ---- What saving and deleting does to later restores ----

  /** A saved state is what a request for its seqno restores, and for a later seqno too unless a
      newer readable file is there; requests below it are not affected. */
  lemma SaveThenRestore(dir: Dir, seqno: nat, state: Assembler, request: nat)
    ensures Restore(dir[seqno := Readable(state)], seqno) == Some((seqno, state))
    ensures Restore(dir[seqno := Readable(state)], request) ==
            if seqno <= request && (forall k :: k in Usable(dir, request) ==> k <= seqno) then Some((seqno, state))
            else Restore(dir, request)
  {
    var after := dir[seqno := Readable(state)];
    assert seqno in Usable(after, seqno);
    if seqno <= request {
      assert Usable(after, request) == Usable(dir, request) + {seqno};
      if k :| k in Usable(dir, request) && k > seqno {
        var g, h := Greatest(Usable(dir, request)), Greatest(Usable(after, request));
        assert g == h && g != seqno;
      }
    } else {
      assert Usable(after, request) == Usable(dir, request);
    }
  }

  /** As many files are kept as there is room for: none is deleted while there is room. */
  lemma CollectKeepsMost(dir: Dir, current: nat, keep: nat)
    ensures Collect(dir, current, keep).Keys <= NotAbove(dir, current)
    ensures |Collect(dir, current, keep).Keys| ==
            if |NotAbove(dir, current)| < keep then |NotAbove(dir, current)| else keep
    ensures forall k :: k in Collect(dir, current, keep) ==> Collect(dir, current, keep)[k] == dir[k]
  {
    var all := NotAbove(dir, current);
    TopSize(all, keep);
    forall k | k in all ensures Newer(dir, current, k) == Above(all, k) {}
    assert Collect(dir, current, keep).Keys == Top(all, keep);
  }

  /** The periodic clean-up keeps a hundred of the files that are not above the expected seqno. */
  lemma GcKeepsHundred(first: nat, blocks: seq<ParsedBlock>, s: System)
    requires Enabled(first, blocks, s, Gc)
    ensures var files, t := NotAbove(s.dir, first + s.n), Apply(first, blocks, s, Gc);
            && t.dir.Keys <= files && |t.dir.Keys| == (if |files| < 100 then |files| else 100)
            && (forall k, x :: k in files && k !in t.dir && x in t.dir ==> k < x)
  {
    hide ProcessBlock, Keyed, Collect;
    CollectKeepsMost(s.dir, first + s.n, 100);
    var t := Apply(first, blocks, s, Gc);
    forall k, x | k in NotAbove(s.dir, first + s.n) && k !in t.dir && x in t.dir ensures k < x {
      CollectKeepsNewest(s.dir, first + s.n, 100, k, x);
    }
  }

  /** What is kept is newer than what is deleted. */
  lemma CollectKeepsNewest(dir: Dir, current: nat, keep: nat, k: nat, x: nat)
    requires k in NotAbove(dir, current) && x in NotAbove(dir, current)
    requires x in Collect(dir, current, keep) && k !in Collect(dir, current, keep)
    ensures k < x
  {
    if x < k {
      assert Newer(dir, current, k) <= Newer(dir, current, x);
      SubsetSize(Newer(dir, current, k), Newer(dir, current, x));
    }
  }

  /** For requests not above the current seqno, the restored checkpoint is the same after the
      deletion exactly when a kept file can serve the request or no file could. */
  lemma CollectKeepsAnswer(dir: Dir, current: nat, keep: nat, request: nat)
    requires request <= current
    ensures Restore(Collect(dir, current, keep), request) == Restore(dir, request) <==>
            Usable(Collect(dir, current, keep), request) != {} || Usable(dir, request) == {}
  {
    var after := Collect(dir, current, keep);
    assert Usable(after, request) <= Usable(dir, request);
    if Usable(after, request) != {} {
      var k, g := Greatest(Usable(after, request)), Greatest(Usable(dir, request));
      if g !in after {
        CollectKeepsNewest(dir, current, keep, g, k);
      }
      assert g in Usable(after, request);
    }
  }

  // ---- Runs with restarts ----

  datatype Event = Process | Save | Gc | Damage(k: nat) | Restart(request: nat)

  // `n` blocks are behind the assembler; `emitted` lists what was handed on.
  datatype System = System(n: nat, state: Assembler, dir: Dir, emitted: seq<(nat, BlockResult)>)

  predicate Enabled(first: nat, blocks: seq<ParsedBlock>, s: System, e: Event) {
    && Keyed(s.state.traces, s.state.edges)
    && match e
       case Process => s.n < |blocks|
       case Restart(request) => Restore(s.dir, request).Some? && first <= Restore(s.dir, request).value.0 + 1
       case _ => true
  }

  // One step of the actor or of its surroundings. A restart loses the pending maps and takes
  // them from the restored checkpoint; the next block is then the one after it.
  function Apply(first: nat, blocks: seq<ParsedBlock>, s: System, e: Event): System
    requires Enabled(first, blocks, s, e)
  {
    match e
    case Process =>
      var p := ProcessBlock(s.state, first + s.n, blocks[s.n]);
      s.(n := s.n + 1, state := p.0, emitted := s.emitted + [(first + s.n, p.1)])
    case Save => if first + s.n == 0 then s else s.(dir := s.dir[first + s.n - 1 := Readable(s.state)])
    case Gc => s.(dir := Collect(s.dir, first + s.n, 100))
    case Damage(k) => if k in s.dir then s.(dir := s.dir[k := Unreadable]) else s
    case Restart(request) =>
      var r := Restore(s.dir, request).value;
      s.(n := r.0 + 1 - first, state := r.1)
  }

  predicate Possible(first: nat, blocks: seq<ParsedBlock>, s: System, es: seq<Event>)
    decreases |es|
  {
    es == [] || (Enabled(first, blocks, s, es[0]) && Possible(first, blocks, Apply(first, blocks, s, es[0]), es[1..]))
  }

  function Play(first: nat, blocks: seq<ParsedBlock>, s: System, es: seq<Event>): System
    requires Possible(first, blocks, s, es)
    decreases |es|
  {
    if es == [] then s else Play(first, blocks, Apply(first, blocks, s, es[0]), es[1..])
  }

  // The uninterrupted run after `n` blocks.
  function StateAfter(first: nat, blocks: seq<ParsedBlock>, n: nat): Assembler
    requires n <= |blocks|
  {
    Run(EMPTY, first, blocks[..n]).0
  }

  ghost predicate SavedRight(first: nat, blocks: seq<ParsedBlock>, dir: Dir) {
    forall k :: k in dir && dir[k].Readable? ==>
      first <= k + 1 <= first + |blocks| && dir[k].state == StateAfter(first, blocks, k + 1 - first)
  }

  ghost predicate EmittedRight(first: nat, blocks: seq<ParsedBlock>, out: seq<(nat, BlockResult)>) {
    forall i :: 0 <= i < |out| ==>
      first <= out[i].0 < first + |blocks| && out[i].1 == Run(EMPTY, first, blocks).1[out[i].0 - first]
  }

  // As if there had been no restart.
  ghost predicate OnTrack(first: nat, blocks: seq<ParsedBlock>, s: System) {
    && s.n <= |blocks|
    && s.state == StateAfter(first, blocks, s.n)
    && SavedRight(first, blocks, s.dir)
    && EmittedRight(first, blocks, s.emitted)
  }

  lemma ProcessStaysOnTrack(first: nat, blocks: seq<ParsedBlock>, s: System)
    requires OnTrack(first, blocks, s) && s.n < |blocks|
    ensures OnTrack(first, blocks, Apply(first, blocks, s, Process))
  {
    hide ProcessBlock, Keyed;
    assert blocks[..s.n + 1][..s.n] == blocks[..s.n];
    RunResultAt(first, blocks, s.n);
  }

  lemma StepStaysOnTrack(first: nat, blocks: seq<ParsedBlock>, s: System, e: Event)
    requires OnTrack(first, blocks, s) && Enabled(first, blocks, s, e)
    ensures OnTrack(first, blocks, Apply(first, blocks, s, e))
  {
    hide ProcessBlock, Keyed, Run;
    if e.Process? {
      ProcessStaysOnTrack(first, blocks, s);
    }
  }

  /** Checkpoint equivalence: however often the assembler saves, deletes old files, has files
      damaged, and is restarted from a checkpoint it finds, its pending maps are those of the
      uninterrupted run, and every block result it ever handed on is the uninterrupted one. */
  lemma {:induction false} RestartsAreInvisible(first: nat, blocks: seq<ParsedBlock>, s: System, es: seq<Event>)
    requires OnTrack(first, blocks, s) && Possible(first, blocks, s, es)
    ensures OnTrack(first, blocks, Play(first, blocks, s, es))
    decreases |es|
  {
    hide OnTrack, Apply;
    if es != [] {
      StepStaysOnTrack(first, blocks, s, es[0]);
      RestartsAreInvisible(first, blocks, Apply(first, blocks, s, es[0]), es[1..]);
    }
  }

  /** Starting with nothing processed and no files is on track. */
  lemma StartIsOnTrack(first: nat, blocks: seq<ParsedBlock>)
    ensures OnTrack(first, blocks, System(0, EMPTY, map[], []))
  {
  }
}
