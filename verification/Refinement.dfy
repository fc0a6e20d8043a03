/** The handlers of Vault, which run without interruption, and the statements of
    GcProtocol, which interleave: taken one after the other, with nothing in between, the
    statements do what the handlers do, whatever fails. */
module Refinement {
  import opened Basics
  import opened Tables
  import opened StorageKeys
  import opened GcProtocol
  import Retention
  import Vault
  import VaultTheorems

  // ---------- steps without interruption ----------

  /** The state after the steps, or None when one of them is not enabled. */
  function After(codec: Codec, grace: int, s: State, steps: seq<Step>): Option<State> {
    if steps == [] then Some(s)
    else
      var k := |steps| - 1;
      match After(codec, grace, s, steps[..k])
      case None => None
      case Some(m) => if Enabled(codec, grace, m, steps[k]) then Some(Apply(codec, grace, m, steps[k])) else None
  }

  lemma OneMore(codec: Codec, grace: int, s: State, steps: seq<Step>, m: State, step: Step)
    requires After(codec, grace, s, steps) == Some(m) && Enabled(codec, grace, m, step)
    ensures After(codec, grace, s, steps + [step]) == Some(Apply(codec, grace, m, step))
  {
    assert (steps + [step])[..|steps|] == steps;
  }

  lemma {:induction false} Joined(codec: Codec, grace: int, s: State, a: seq<Step>, m: State, b: seq<Step>)
    requires After(codec, grace, s, a) == Some(m)
    ensures After(codec, grace, s, a + b) == After(codec, grace, m, b)
  {
    if b == [] {
      assert a + b == a;
    } else {
      var k := |b| - 1;
      Joined(codec, grace, s, a, m, b[..k]);
      assert (a + b)[..|a + b| - 1] == a + b[..k];
    }
  }

  // ---------- a put ----------

  predicate OnlyPut(n: int, steps: seq<Step>) {
    forall i :: 0 <= i < |steps| ==> steps[i].OfPut? && steps[i].handler == n
  }

  /** With every combination of faults, statements of one put handler, one after the other,
      leave the state as Vault.AfterPut leaves the tables, and nothing else changed. */
  lemma PutIsItsSteps(
    codec: Codec, grace: int, s: State, n: int, hash: string, body: Bytes, f: Vault.PutFaults)
    returns (steps: seq<Step>)
    requires n !in s.puts
    ensures OnlyPut(n, steps)
    ensures After(codec, grace, s, steps) == Some(s.(t := Vault.AfterPut(codec, s.t, hash, body, f).0))
  {
    steps := [];
    if IsHash(hash) && VaultTheorems.GoesAhead(s.t, hash, f) {
      steps := GoingAhead(codec, grace, s, n, hash, body, f);
    }
  }

  lemma GoingAhead(
    codec: Codec, grace: int, s: State, n: int, hash: string, body: Bytes, f: Vault.PutFaults)
    returns (steps: seq<Step>)
    requires n !in s.puts && IsHash(hash) && VaultTheorems.GoesAhead(s.t, hash, f)
    ensures OnlyPut(n, steps)
    ensures After(codec, grace, s, steps) == Some(s.(t := Vault.AfterPut(codec, s.t, hash, body, f).0))
  {
    var m: State;
    match f.put
    case PutDone =>
      var last := if !Verified(codec, body, hash) then CleanUp(f.delete) else if f.addFails then Lose else Accept;
      steps := ThreeSteps(codec, grace, s, n, hash, body, last);
    case PutFailed(None) =>
      steps := [OfPut(n, Begin(BlobId(s.t.active, hash))), OfPut(n, Reject)];
      OneMore(codec, grace, s, [], s, steps[0]);
      m := Apply(codec, grace, s, steps[0]);
      assert [] + [steps[0]] == [steps[0]];
      OneMore(codec, grace, s, [steps[0]], m, steps[1]);
      assert m.puts - {n} == s.puts;
      assert s.t.objects - {ObjectId(s.t.active, BlobObject(hash))} - {ObjectId(s.t.active, BlobObject(hash))}
          == s.t.objects - {ObjectId(s.t.active, BlobObject(hash))};
    case PutFailed(Some(part)) =>
      steps := ThreeSteps(codec, grace, s, n, hash, part, CleanUp(f.delete));
  }

  function CleanUp(delete: Vault.DeleteOutcome): PutStep {
    if delete == Vault.DeleteFailed(false) then Lose else Reject
  }

  lemma ThreeSteps(
    codec: Codec, grace: int, s: State, n: int, hash: string, data: Bytes, last: PutStep) returns (steps: seq<Step>)
    requires n !in s.puts && (last.Reject? || last.Lose? || (last.Accept? && Verified(codec, data, hash)))
    ensures OnlyPut(n, steps)
    ensures var t := s.t.Put(BlobObject(hash), data);
            After(codec, grace, s, steps) ==
            Some(s.(t := match last
                         case Accept => t.AddBlob(BlobId(s.t.active, hash))
                         case Reject => t.Remove(BlobObject(hash))
                         case _ => t))
  {
    var id := BlobId(s.t.active, hash);
    var a, b, c := OfPut(n, Begin(id)), OfPut(n, Write(data)), OfPut(n, last);
    OneMore(codec, grace, s, [], s, a);
    var s1 := Apply(codec, grace, s, a);
    assert [] + [a] == [a];
    OneMore(codec, grace, s, [a], s1, b);
    var s2 := Apply(codec, grace, s1, b);
    OneMore(codec, grace, s, [a] + [b], s2, c);
    steps := [a] + [b] + [c];
    assert s2.puts - {n} == s.puts;
  }

  // ---------- a commit and a deletion ----------

  predicate OnlyRun(r: string, steps: seq<Step>) {
    forall i :: 0 <= i < |steps| ==> steps[i].OfRun? && steps[i].run == r
  }

  /** The commit of a run that has done its final check, with a manifest of hashes it
      found, while no collection runs: stored, and then the row, or the clean-up. */
  lemma CommitIsItsSteps(
    codec: Codec, grace: int, s: State, r: string, id: string, job: string, data: Bytes, f: Vault.CommitFaults)
    returns (steps: seq<Step>)
    requires r in s.runs && s.runs[r].phase.Checked? && s.gc.Idle? && FreshId(s, id)
    requires codec.readManifest(data).Some? && AllFilesHashed(codec.readManifest(data).value)
    requires FileHashes(codec.readManifest(data).value) <= s.runs[r].phase.hashes
    requires !f.refused && f.put.PutDone?
    ensures OnlyRun(r, steps)
    ensures After(codec, grace, s, steps).Some?
    ensures var u := After(codec, grace, s, steps).value;
            && u.t == Vault.AfterCommit(s.t, id, job, data, f).0 && u.runs == s.runs - {r}
            && (u.committed == if f.insertFails then s.committed
                               else s.committed[id := codec.readManifest(data).value])
            && u == s.(t := u.t, runs := u.runs, committed := u.committed)
  {
    var m: State;
    steps, m := ManifestIsStored(codec, grace, s, r, id, data);
    var last := if f.insertFails then Abandon(f.delete != Vault.DeleteFailed(false)) else CreateRow(job);
    OneMore(codec, grace, s, steps, m, OfRun(r, last));
    steps := steps + [OfRun(r, last)];
    assert m.runs - {r} == s.runs - {r};
  }

  lemma ManifestIsStored(codec: Codec, grace: int, s: State, r: string, id: string, data: Bytes)
    returns (steps: seq<Step>, m: State)
    requires r in s.runs && s.runs[r].phase.Checked? && s.gc.Idle? && FreshId(s, id)
    requires codec.readManifest(data).Some? && AllFilesHashed(codec.readManifest(data).value)
    requires FileHashes(codec.readManifest(data).value) <= s.runs[r].phase.hashes
    ensures OnlyRun(r, steps) && After(codec, grace, s, steps) == Some(m)
    ensures r in m.runs && m == s.(t := s.t.Put(ManifestObject(id), data), runs := s.runs[r := m.runs[r]])
    ensures var p := m.runs[r].phase; p.Stored? && p.id == id && p.entries == codec.readManifest(data).value
  {
    var a, b := OfRun(r, BeginCommit), OfRun(r, StoreManifest(id, data));
    OneMore(codec, grace, s, [], s, a);
    var s1 := Apply(codec, grace, s, a);
    assert [] + [a] == [a];
    OneMore(codec, grace, s, [a], s1, b);
    m := Apply(codec, grace, s1, b);
    steps := [a] + [b];
    assert m.runs == s.runs[r := m.runs[r]];
  }

  /** The deletion of a snapshot, whatever fails. */
  lemma DeletionIsItsSteps(codec: Codec, grace: int, s: State, id: string, f: Vault.DeleteFaults)
    returns (steps: seq<Step>)
    ensures forall i :: 0 <= i < |steps| ==> steps[i] in {DeleteManifest(id), DeleteRow(id)}
    ensures After(codec, grace, s, steps).Some?
    ensures var u := After(codec, grace, s, steps).value;
            && u.t == Vault.AfterDeletion(s.t, id, f).0
            && u == s.(t := u.t, deleting := u.deleting)
            && u.deleting == if DeleteManifest(id) in steps then s.deleting + {id} else s.deleting
  {
    steps := [];
    var gone := f.delete != Vault.DeleteFailed(false);
    if !f.readFails && Vault.HasRow(s.t, id) && gone {
      OneMore(codec, grace, s, [], s, DeleteManifest(id));
      steps := [DeleteManifest(id)];
      assert [] + [DeleteManifest(id)] == steps;
      if f.delete.DeleteDone? && !f.rowFails {
        OneMore(codec, grace, s, steps, After(codec, grace, s, steps).value, DeleteRow(id));
        steps := steps + [DeleteRow(id)];
      }
    }
  }

  // ---------- a collection ----------

  predicate OnlyGc(steps: seq<Step>) {
    forall i :: 0 <= i < |steps| ==> steps[i].OfGc?
  }

  /** Marking what is pending, row by row. */
  lemma {:induction false} MarkAll(codec: Codec, grace: int, s: State) returns (steps: seq<Step>, found: set<string>)
    requires s.gc.Marking? && s.gc.backend == s.t.active
    requires forall sn :: sn in s.gc.pending ==> ReadFrom(codec, s.t, sn.id).Some?
    ensures OnlyGc(steps)
    ensures After(codec, grace, s, steps) == Some(s.(gc := Marking(s.gc.backend, {}, found)))
    ensures forall h :: h in found <==>
              h in s.gc.referenced || exists sn :: sn in s.gc.pending && VaultTheorems.Names(codec, s.t, sn, h)
    decreases s.gc.pending
  {
    if s.gc.pending == {} {
      steps, found := [], s.gc.referenced;
    } else {
      var sn :| sn in s.gc.pending;
      var step := OfGc(Mark(sn));
      OneMore(codec, grace, s, [], s, step);
      assert [] + [step] == [step];
      var m := Apply(codec, grace, s, step);
      var more: seq<Step>;
      more, found := MarkAll(codec, grace, m);
      Joined(codec, grace, s, [step], m, more);
      steps := [step] + more;
      assert s.gc.pending == m.gc.pending + {sn};
    }
  }

  /** Deleting some of what was planned, object and row. */
  lemma {:induction false} SweepSome(codec: Codec, grace: int, s: State, done: set<string>) returns (steps: seq<Step>)
    requires s.gc.Sweeping? && s.gc.dangling.None? && s.gc.backend == s.t.active && done <= s.gc.todo
    ensures OnlyGc(steps)
    ensures After(codec, grace, s, steps)
         == Some(s.(t := Vault.Without(s.t, done, done), gc := Sweeping(s.gc.backend, s.gc.todo - done, None)))
    decreases done
  {
    steps := [];
    if done == {} {
      Vault.NothingSwept(s.t);
      assert s.gc.todo - done == s.gc.todo;
    } else {
      var h :| h in done;
      var rest := done - {h};
      steps := SweepSome(codec, grace, s, rest);
      var m := After(codec, grace, s, steps).value;
      var a, b := OfGc(DeleteObject(h)), OfGc(DeleteIndexRow);
      OneMore(codec, grace, s, steps, m, a);
      var m1 := Apply(codec, grace, m, a);
      OneMore(codec, grace, s, steps + [a], m1, b);
      Vault.RemoveOne(s.t, rest, rest, h);
      Vault.RemoveRow(s.t, rest + {h}, rest, h);
      assert rest + {h} == done;
      assert s.gc.todo - rest - {h} == s.gc.todo - done;
      steps := steps + [a] + [b];
    }
  }

  lemma DoomedIsGarbage(codec: Codec, grace: int, t: Tables)
    requires Vault.MarkedActive(codec, t).Some?
    ensures forall h :: h in Vault.Doomed(codec, grace, t) ==>
              Garbage(t, t.active, Vault.MarkedActive(codec, t).value, grace, h)
  {
  }

  /** What the rows of the active backend name is what Vault.Mark collects. */
  lemma SameMarks(codec: Codec, t: Tables, found: set<string>)
    requires Vault.MarkedActive(codec, t).Some?
    requires forall h :: h in found <==>
               exists sn :: sn in RowsOf(t, t.active) && VaultTheorems.Names(codec, t, sn, h)
    ensures found == Vault.MarkedActive(codec, t).value
  {
    var rows := Retention.Listed(Vault.OfBackend(t.snapshots, t.active));
    Vault.ActiveRows(t);
    VaultTheorems.MarkedIs(codec, t, rows);
    assert forall sn :: sn in RowsOf(t, t.active) <==> sn in rows;
  }

  lemma RowsAreReadable(codec: Codec, t: Tables)
    requires Vault.MarkedActive(codec, t).Some?
    ensures forall sn :: sn in RowsOf(t, t.active) ==> ReadFrom(codec, t, sn.id).Some?
  {
    Vault.ActiveRows(t);
    VaultTheorems.MarkedIs(codec, t, Retention.Listed(Vault.OfBackend(t.snapshots, t.active)));
  }

  lemma LockTaken(codec: Codec, grace: int, s: State)
    requires s.gc.Idle? && (forall r :: r in s.runs ==> !HoldsReadLock(s.runs[r].phase))
    ensures After(codec, grace, s, [OfGc(Lock)]) == Some(s.(gc := Marking(s.t.active, RowsOf(s.t, s.t.active), {})))
  {
    OneMore(codec, grace, s, [], s, OfGc(Lock));
    assert [] + [OfGc(Lock)] == [OfGc(Lock)];
  }

  lemma AllMarked(codec: Codec, grace: int, s: State) returns (steps: seq<Step>)
    requires s.gc.Idle? && (forall r :: r in s.runs ==> !HoldsReadLock(s.runs[r].phase))
    requires Vault.MarkedActive(codec, s.t).Some?
    ensures OnlyGc(steps)
    ensures After(codec, grace, s, steps)
         == Some(s.(gc := Marking(s.t.active, {}, Vault.MarkedActive(codec, s.t).value)))
  {
    LockTaken(codec, grace, s);
    RowsAreReadable(codec, s.t);
    var m := s.(gc := Marking(s.t.active, RowsOf(s.t, s.t.active), {}));
    var marks, found := MarkAll(codec, grace, m);
    SameMarks(codec, s.t, found);
    Joined(codec, grace, s, [OfGc(Lock)], m, marks);
    steps := [OfGc(Lock)] + marks;
  }

  /** The mark phase and the plan: a collection that can read every manifest of the active
      backend may delete exactly the doomed blobs. */
  lemma PlanDoomed(codec: Codec, grace: int, s: State) returns (steps: seq<Step>)
    requires s.gc.Idle? && (forall r :: r in s.runs ==> !HoldsReadLock(s.runs[r].phase))
    requires Vault.MarkedActive(codec, s.t).Some?
    ensures OnlyGc(steps)
    ensures After(codec, grace, s, steps)
         == Some(s.(gc := Sweeping(s.t.active, Vault.Doomed(codec, grace, s.t), None)))
  {
    steps := AllMarked(codec, grace, s);
    DoomedIsGarbage(codec, grace, s.t);
    var u := s.(gc := Marking(s.t.active, {}, Vault.MarkedActive(codec, s.t).value));
    var plan := OfGc(Plan(Vault.Doomed(codec, grace, s.t)));
    OneMore(codec, grace, s, steps, u, plan);
    steps := steps + [plan];
  }

  /** A collection: lock, mark every row, plan, delete object and row of each doomed blob,
      and unlock, leaves exactly what Vault.Swept says. */
  lemma CollectionIsItsSteps(codec: Codec, grace: int, s: State) returns (steps: seq<Step>)
    requires s.gc.Idle? && (forall r :: r in s.runs ==> !HoldsReadLock(s.runs[r].phase))
    requires Vault.MarkedActive(codec, s.t).Some?
    ensures OnlyGc(steps)
    ensures After(codec, grace, s, steps) == Some(s.(t := Vault.Swept(codec, grace, s.t)))
  {
    var doomed := Vault.Doomed(codec, grace, s.t);
    var plan := PlanDoomed(codec, grace, s);
    var m := After(codec, grace, s, plan).value;
    var sweep := SweepSome(codec, grace, m, doomed);
    Joined(codec, grace, s, plan, m, sweep);
    var u := After(codec, grace, s, plan + sweep).value;
    OneMore(codec, grace, s, plan + sweep, u, OfGc(Finish));
    steps := plan + sweep + [OfGc(Finish)];
  }

  /** A collection that stops at a blob, having deleted others and that blob's object or
      not, leaves what Vault.Stopped says. */
  lemma StoppedCollectionIsItsSteps(
    codec: Codec, grace: int, s: State, done: set<string>, stuck: string, loses: bool) returns (steps: seq<Step>)
    requires s.gc.Idle? && (forall r :: r in s.runs ==> !HoldsReadLock(s.runs[r].phase))
    requires Vault.StopsAt(codec, grace, s.t, done, stuck)
    ensures OnlyGc(steps)
    ensures After(codec, grace, s, steps) == Some(s.(t := Vault.Stopped(s.t, done, stuck, loses)))
  {
    var plan := PlanDoomed(codec, grace, s);
    var m := After(codec, grace, s, plan).value;
    var sweep := SweepSome(codec, grace, m, done);
    Joined(codec, grace, s, plan, m, sweep);
    steps := plan + sweep;
    var u := After(codec, grace, s, steps).value;
    if loses {
      OneMore(codec, grace, s, steps, u, OfGc(DeleteObject(stuck)));
      Vault.RemoveOne(s.t, done, done, stuck);
      u := Apply(codec, grace, u, OfGc(DeleteObject(stuck)));
      steps := steps + [OfGc(DeleteObject(stuck))];
    }
    OneMore(codec, grace, s, steps, u, OfGc(Abort));
    steps := steps + [OfGc(Abort)];
  }
}
