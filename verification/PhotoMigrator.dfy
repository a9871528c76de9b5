/** `storage migrate`: the migrator itself, one port call after another, with its counters and progress
    reports. Each call is recorded as a step of the migration protocol. */
module PhotoMigration {
  import opened Prelude
  import opened StorageKeys
  import opened Photos
  import opened PhotoPorts
  import opened MigrationProtocol
  import opened MigrationOutcome
  import opened MigrationReclaim
  import opened MigrationOrphans
  import opened MigrationProgress
  import opened MigrationReports
  import MigrationSafety

  /** The classes `storage migrate` moves when none is named. */
  const MIGRATABLE_CLASSES: seq<PhotoClass> := [Album, ChoreProof]

  class PhotoMigrator {
    const ports: Stores
    const batchSize: nat

    // The protocol run this process has taken part in so far.
    ghost var classes: set<PhotoClass>
    ghost var agent: Agent
    ghost var run: seq<System>

    ghost predicate Recorded()
      reads this
    {
      && batchSize > 0 && classes <= {Album, ChoreProof}
      && |run| > 0 && run[|run| - 1].agents == [agent]
      && Fresh(run[0]) && |run[0].agents| == 1
      && IsRun(ports.cfg, run) && (!ports.faulty ==> IsTidyRun(ports.cfg, classes, run))
    }

    /** The recorded run has reached the current state of the stores. */
    ghost predicate Valid()
      reads this, ports
    {
      Recorded() && run[|run| - 1].w == ports.Now()
    }

    constructor (ports: Stores, batchSize: nat)
      requires batchSize > 0
      ensures Valid() && this.ports == ports && this.batchSize == batchSize && agent.phase.Idle?
    {
      this.ports, this.batchSize := ports, batchSize;
      classes, agent := {}, Agent({}, Idle);
      run := [System(ports.Now(), [Agent({}, Idle)])];
    }

    /** Records the port call just made as one step of the run. */
    ghost method Advance(act: Action, next: Agent)
      requires Recorded() && Take(ports.cfg, true, act, run[|run| - 1].w, agent, ports.Now(), next)
      requires !ports.faulty ==> TidyTake(ports.cfg, classes, act, run[|run| - 1].w, agent, ports.Now(), next)
      modifies this`agent, this`run
      ensures Valid() && agent == next && old(run) <= run
    {
      var longer := run + [System(ports.Now(), [next])];
      assert StepOf(ports.cfg, 0, act, run[|run| - 1], longer[|run|]);
      forall n | 0 <= n < |longer| - 1
        ensures StepAt(ports.cfg, longer, n)
        ensures !ports.faulty ==> TidyStepAt(ports.cfg, classes, longer, n)
      {
        if n < |run| - 1 {
          assert StepAt(ports.cfg, run, n);
          assert !ports.faulty ==> TidyStepAt(ports.cfg, classes, run, n);
        } else {
          assert !ports.faulty ==> TidyStep(ports.cfg, classes, longer[n], longer[n + 1]);
        }
      }
      agent, run := next, longer;
    }

    /** Without faults, the current state is on the way from any earlier one of the run. */
    lemma Progressed(earlier: seq<System>)
      requires Valid() && !ports.faulty && |earlier| > 0 && earlier <= run
      ensures OnTheWay(ports.cfg, classes, earlier[|earlier| - 1].w, ports.Now())
    {
      TidyRunIsClean(ports.cfg, classes, run);
      CleanRunOnTheWay(ports.cfg, classes, run, |earlier| - 1, |run| - 1);
    }

    // ---- One row ----

    /** Reads the target object back and compares its digest, without ever reading past the cap. */
    method VerifyTargetObject(ref: Ref, expected: Digest) returns (ok: bool)
      ensures ok ==> Intact(ports.cfg, ports.target, ref, expected)
      ensures !ports.faulty ==> (ok <==> Intact(ports.cfg, ports.target, ref, expected))
    {
      var file := ports.OpenTarget(ref);
      if file.Err? { return false; }
      var read := ports.Read(file.value, ports.cfg.maxUploadBytes);
      if read.Err? || |read.value| > ports.cfg.maxUploadBytes { return false; }
      ok := ports.cfg.digest(read.value) == expected;
    }

    /** A listed row, as it was listed: nothing else changes rows while this process runs. */
    ghost predicate InHand(c: PhotoClass, id: nat, row: Row)
      reads this, ports
    {
      && Valid() && agent.phase.Idle? && c in classes && Listed(c, id, row) in agent.seen
      && id in ports.Now().Rows(c) && ports.Now().Rows(c)[id] == row
    }

    /** The local half of migrateBytes: reads the file under the size cap and checks it against the row. */
    method ReadLocal(c: PhotoClass, id: nat, row: Row) returns (r: Result<Bytes, Failure>)
      requires InHand(c, id, row) && row.backend.Local?
      modifies this`agent, this`run
      ensures Valid() && old(run) <= run
      ensures r.Err? ==> agent == old(agent)
      ensures r.Ok? ==>
                && row.ref in ports.local && r.value == ports.local[row.ref] && Acceptable(ports.cfg, row, r.value)
                && agent == old(agent).(phase := Opened(c, id, row, r.value))
      ensures !ports.faulty ==> (r.Ok? <==> row.ref in ports.local && Acceptable(ports.cfg, row, ports.local[row.ref]))
      ensures !ports.faulty && r.Err? ==> OutcomeOf(r.error) == VerdictOf(ports.cfg, ports.Now(), c, id)
    {
      var file := ports.OpenLocal(row.ref);
      if file.Err? { return Err(Other); }
      Advance(Open(Listed(c, id, row)), agent.(phase := Opened(c, id, row, file.value)));
      if ExtensionForContentType(row.contentType).None? { Drop(); return Err(Other); }
      var read := ports.Read(file.value, ports.cfg.maxUploadBytes);
      if read.Err? || |read.value| > ports.cfg.maxUploadBytes { Drop(); return Err(Other); }
      if row.hash.Some? && ports.cfg.digest(read.value) != row.hash.value { Drop(); return Err(Mismatch); }
      r := Ok(read.value);
    }

    /** Uploads the bytes to their key unless an object is already there. */
    method UploadUnlessPresent(c: PhotoClass, id: nat, row: Row, data: Bytes, key: Ref) returns (ok: bool)
      requires Valid() && agent.phase == Opened(c, id, row, data) && Acceptable(ports.cfg, row, data) && c in classes
      requires key == KeyOf(ports.cfg, c, row, data)
      modifies this`agent, this`run, ports`target
      ensures Valid() && old(run) <= run
      ensures agent == old(agent).(phase := if ok then Present(c, id, row, data) else Idle)
      ensures !ports.faulty ==>
                ok && ports.target ==
                  if key in old(ports.target) then old(ports.target) else old(ports.target)[key := data]
      ensures || ports.target == old(ports.target)
              || (key in ports.target && ports.target == old(ports.target)[key := ports.target[key]])
    {
      var found := ports.ObjectExists(key);
      if found.Err? { Drop(); return false; }
      if found.value {
        Advance(CheckTarget, agent.(phase := Present(c, id, row, data)));
        return true;
      }
      Advance(CheckTarget, agent.(phase := Absent(c, id, row, data)));
      ghost var stored;
      ok, stored := ports.PutAt(key, data);
      Advance(Put(stored, ok), agent.(phase := if ok then Present(c, id, row, data) else Idle));
    }

    /** The target half of migrateBytes: uploads unless an object is present, then reads it back. */
    method PlaceOnTarget(c: PhotoClass, id: nat, row: Row, data: Bytes) returns (r: Result<(Ref, Digest), Failure>)
      requires Valid() && agent.phase == Opened(c, id, row, data) && Acceptable(ports.cfg, row, data) && c in classes
      modifies this`agent, this`run, ports`target
      ensures Valid() && old(run) <= run && agent.seen == old(agent.seen)
      ensures r.Err? ==> agent.phase.Idle?
      ensures r.Ok? ==>
                && r.value == (KeyOf(ports.cfg, c, row, data), ports.cfg.digest(data))
                && agent.phase == Verified(c, id, row, data) && Intact(ports.cfg, ports.target, r.value.0, r.value.1)
      ensures !ports.faulty ==>
                (r.Ok? <==> var key := KeyOf(ports.cfg, c, row, data);
                   key in old(ports.target) ==> Intact(ports.cfg, old(ports.target), key, ports.cfg.digest(data)))
      ensures !ports.faulty && r.Err? ==> r.error == Integrity
      ensures forall k :: k in ports.target && k !in old(ports.target) ==> ClassOfKey(k) == Some(c)
    {
      hide IsRun, IsTidyRun, Fresh;
      var hash, ext := ports.cfg.digest(data), ExtensionForContentType(row.contentType).value;
      var key := BuildStorageKey(row.household, c, hash, ext).value;
      ClassOfBuiltKey(row.household, c, hash, ext);
      var present := UploadUnlessPresent(c, id, row, data, key);
      if !present { return Err(Other); }
      var intact := VerifyTargetObject(key, hash);
      if !intact { Drop(); return Err(Integrity); }
      Advance(ReadBack, agent.(phase := Verified(c, id, row, data)));
      r := Ok((key, hash));
    }

    /** Reads, checks, uploads unless present, and verifies one row's bytes. */
    method MigrateBytes(c: PhotoClass, id: nat, row: Row) returns (r: Result<(Ref, Digest), Failure>)
      requires InHand(c, id, row) && row.backend.Local?
      modifies this`agent, this`run, ports`target
      ensures Valid() && old(run) <= run && agent.seen == old(agent.seen)
      ensures r.Err? ==> agent.phase.Idle?
      ensures r.Ok? ==>
                && row.ref in ports.local && Acceptable(ports.cfg, row, ports.local[row.ref])
                && var data := ports.local[row.ref];
                && r.value == (KeyOf(ports.cfg, c, row, data), ports.cfg.digest(data))
                && agent.phase == Verified(c, id, row, data)
                && Intact(ports.cfg, ports.target, r.value.0, r.value.1)
      ensures !ports.faulty ==> (r.Ok? <==> Good(ports.cfg, old(ports.Now()), c, row))
      ensures !ports.faulty && r.Err? ==> OutcomeOf(r.error) == VerdictOf(ports.cfg, old(ports.Now()), c, id)
      ensures forall k :: k in ports.target && k !in old(ports.target) ==> ClassOfKey(k) == Some(c)
    {
      var read := ReadLocal(c, id, row);
      if read.Err? { return Err(read.error); }
      r := PlaceOnTarget(c, id, row, read.value);
    }

    /** The row is given up; the stores are as they were. */
    ghost method Drop()
      requires Valid()
      requires !ports.faulty ==>
                 && !agent.phase.Verified?
                 && (KeyInHand(ports.cfg, agent.phase).Some? ==>
                       !Intact(ports.cfg, ports.target, KeyInHand(ports.cfg, agent.phase).value,
                               ports.cfg.digest(agent.phase.data)))
      modifies this`agent, this`run
      ensures Valid() && agent == old(agent).(phase := Idle) && old(run) <= run
    {
      Advance(GiveUp, agent.(phase := Idle));
    }

    /** Deletes a local file unless a local row of either table still references it. An answer is always right;
        an error means that a check or the deletion itself failed. */
    method DeleteLocalIfUnreferenced(ref: Ref) returns (r: Result<bool, PortError>)
      requires Valid() && agent.phase.Release? && agent.phase.ref == ref
      modifies this`agent, this`run, ports`local
      ensures Valid() && agent == old(agent).(phase := Idle) && old(run) <= run
      ensures ports.local == if r == Ok(true) then old(ports.local) - {ref} else old(ports.local)
      ensures r.Ok? ==> (r.value <==> !Needed(ports.Now(), ref))
      ensures !ports.faulty ==> r.Ok?
    {
      hide IsRun, IsTidyRun, Fresh, References;
      var p := agent.phase;
      var inAlbum := ports.ExistsByStorageRef(Album, ref);
      if inAlbum.Err? || inAlbum.value {
        Drop();
        return if inAlbum.Err? then inAlbum else Ok(false);
      }
      Advance(CheckAlbum, agent.(phase := AlbumFree(p.c, p.id, p.ref, p.key, p.h)));
      var inChore := ports.ExistsByStorageRef(ChoreProof, ref);
      if inChore.Err? || inChore.value {
        Drop();
        return if inChore.Err? then inChore else Ok(false);
      }
      Advance(CheckChore, agent.(phase := Unreferenced(p.c, p.id, p.ref, p.key, p.h)));
      var ok := ports.DeleteLocal(ref);
      if !ok { Drop(); return Err(Failed); }
      Advance(DeleteLocal, agent.(phase := Idle));
      r := Ok(true);
    }

    /** Flips a verified row to the target. */
    method FlipRow(c: PhotoClass, id: nat, row: Row, data: Bytes, key: Ref, h: Digest)
      returns (r: Result<bool, PortError>)
      requires Valid() && agent.phase == Verified(c, id, row, data) && c in classes
      requires id in ports.Now().Rows(c) && ports.Now().Rows(c)[id] == row && row.backend.Local?
      requires Acceptable(ports.cfg, row, data) && key == KeyOf(ports.cfg, c, row, data) && h == ports.cfg.digest(data)
      requires !ports.faulty ==> (Moves(ports.cfg, ports.Now(), c, id) <==> !HashTaken(ports.Now(), c, id, row, h))
      requires !ports.faulty ==> InTurn(ports.cfg, ports.Now(), c, id)
      modifies this`agent, this`run, ports`album, ports`chore
      ensures Valid() && old(run) <= run
      ensures ports.Now() == old(ports.Now()) || ports.Now() == old(ports.Now()).SetRow(c, id, Flipped(c, row, key, h))
      ensures r.Ok? ==> r.value && ports.Now().Rows(c)[id].backend.S3?
      ensures agent == old(agent).(phase := if r.Ok? then Release(c, id, row.ref, key, h) else Idle)
      ensures !ports.faulty ==> (r.Ok? <==> Moves(ports.cfg, old(ports.Now()), c, id))
      ensures !ports.faulty && r.Err? ==> ports.Now() == old(ports.Now())
    {
      hide IsRun, IsTidyRun, Fresh, InTurn, Moves;
      ghost var applied;
      r, applied := ports.MigrateStorageBackend(c, id, key, h);
      Advance(Flip(applied, r.Ok?), agent.(phase := if r == Ok(true) then Release(c, id, row.ref, key, h) else Idle));
    }

    /** Deletes the local file a flip left behind, when asked to. A deletion that fails, and only that, is
        reported and counted as an error; without an error the file is gone exactly if no local row needs it. */
    method ReclaimAfterFlip(c: PhotoClass, ref: Ref, deleteLocal: bool, done: nat, total: nat, result: ClassResult)
      returns (deleted: bool, ghost failed: bool)
      requires Valid() && agent.phase.Release? && agent.phase.ref == ref && result.Accounted() && ref in ports.local
      modifies this`agent, this`run, ports`local, result
      ensures Valid() && agent == old(agent).(phase := Idle) && old(run) <= run && result.Accounted()
      ensures result.reports == old(result.reports) + if failed then [FailedDelete(c, done, total, ref)] else []
      ensures ports.local == if deleted then old(ports.local) - {ref} else old(ports.local)
      ensures result.deletedLocal + |ports.local| == old(result.deletedLocal) + |old(ports.local)|
      ensures !deleteLocal ==> !deleted && !failed
      ensures deleteLocal && !failed ==> (deleted <==> !Needed(ports.Now(), ref))
      ensures failed ==> ports.faulty && !deleted
      ensures failed ==>
                var extra := result.reports[|result.reports| - 1];
                && extra.outcome == Error && extra.c == c && extra.ref == ref && !extra.deletedLocal
                && extra.done == done && extra.total == total
    {
      hide IsRun, IsTidyRun, Fresh, Needed, Count, PerRow, Troubled;
      if !deleteLocal {
        Drop();
        return false, false;
      }
      var freed := DeleteLocalIfUnreferenced(ref);
      deleted, failed := freed == Ok(true), freed.Err?;
      assert deleted ==> old(ports.local).Keys == ports.local.Keys + {ref};
      if freed.Err? {
        result.Tell(FailedDelete(c, done, total, ref));
      } else if freed.value {
        result.deletedLocal := result.deletedLocal + 1;
      }
    }

    /** Flips a verified row and reclaims its file. */
    method FinishRow(c: PhotoClass, id: nat, row: Row, key: Ref, h: Digest, deleteLocal: bool, done: nat, total: nat,
                     result: ClassResult)
      returns (outcome: Outcome, deleted: bool, ghost failed: bool)
      requires Valid() && c in classes && result.Accounted()
      requires id in ports.Now().Rows(c) && ports.Now().Rows(c)[id] == row && row.backend.Local?
      requires row.ref in ports.local
      requires agent.phase == Verified(c, id, row, ports.local[row.ref])
      requires Acceptable(ports.cfg, row, ports.local[row.ref])
      requires key == KeyOf(ports.cfg, c, row, ports.local[row.ref]) && h == ports.cfg.digest(ports.local[row.ref])
      requires !ports.faulty ==> (Moves(ports.cfg, ports.Now(), c, id) <==> !HashTaken(ports.Now(), c, id, row, h))
      requires !ports.faulty ==> InTurn(ports.cfg, ports.Now(), c, id)
      modifies this`agent, this`run, ports`local, ports`album, ports`chore, result
      ensures Valid() && agent == old(agent).(phase := Idle) && old(run) <= run && result.Accounted()
      ensures OnlyRow(old(ports.Now()), ports.Now(), c, id)
      ensures outcome.Error? || outcome.Migrated?
      ensures outcome.Migrated? ==> ports.Now().Rows(c)[id].backend.S3? && ports.Now().Rows(c)[id].ref == key
      ensures result.reports == old(result.reports) + if failed then [FailedDelete(c, done, total, row.ref)] else []
      ensures ports.local == if deleted then old(ports.local) - {row.ref} else old(ports.local)
      ensures result.deletedLocal + |ports.local| == old(result.deletedLocal) + |old(ports.local)|
      ensures !deleteLocal ==> !deleted && !failed
      ensures deleteLocal && outcome.Migrated? && !failed ==> (deleted <==> !Needed(ports.Now(), row.ref))
      ensures failed ==> ports.faulty && outcome.Migrated? && !deleted
      ensures !ports.faulty ==> outcome == if Moves(ports.cfg, old(ports.Now()), c, id) then Migrated else Error
      ensures !ports.faulty ==>
                (ports.Now().Rows(c)[id].backend.S3? <==> Moves(ports.cfg, old(ports.Now()), c, id))
    {
      hide Recorded, Acceptable, Moves, InTurn, Intact, KeyOf, HashTaken, Needed, ClassResult.Accounted;
      deleted, failed := false, false;
      var flipped := FlipRow(c, id, row, ports.local[row.ref], key, h);
      if flipped == Ok(true) {
        deleted, failed := ReclaimAfterFlip(c, row.ref, deleteLocal, done, total, result);
      }
      FlipIsOnlyRow(old(ports.Now()), ports.Now(), c, id, Flipped(c, row, key, h));
      outcome := if flipped.Err? then Error else if flipped.value then Migrated else AlreadyMigrated;
    }

    /** One row up to, but not including, the report that ends it. */
    method PassRow(c: PhotoClass, id: nat, row: Row, deleteLocal: bool, done: nat, total: nat, result: ClassResult)
      returns (p: Progress, ghost failed: bool)
      requires InHand(c, id, row) && row.backend.Local? && result.Accounted()
      requires !ports.faulty ==> NoneBefore(ports.cfg, ports.Now(), c, id)
      modifies this`agent, this`run, ports, result
      ensures Valid() && agent.phase.Idle? && agent.seen == old(agent.seen) && old(run) <= run && result.Accounted()
      ensures OnlyRow(old(ports.Now()), ports.Now(), c, id)
      ensures result.reports == old(result.reports) + if failed then [FailedDelete(c, done, total, row.ref)] else []
      ensures p.c == c && p.done == done && p.total == total && !p.deleteFailed && !p.outcome.AlreadyMigrated?
      ensures p.outcome.Migrated? ==> ports.Now().Rows(c)[id].backend.S3?
      ensures p.ref == if p.outcome.Migrated? then ports.Now().Rows(c)[id].ref else row.ref
      ensures ports.local == if p.deletedLocal then old(ports.local) - {row.ref} else old(ports.local)
      ensures result.deletedLocal + |ports.local| == old(result.deletedLocal) + |old(ports.local)|
      ensures !deleteLocal ==> !p.deletedLocal && !failed
      ensures deleteLocal && p.outcome.Migrated? && !failed ==> (p.deletedLocal <==> !Needed(ports.Now(), row.ref))
      ensures failed ==> ports.faulty && p.outcome.Migrated? && !p.deletedLocal
      ensures !ports.faulty ==> p.outcome == VerdictOf(ports.cfg, old(ports.Now()), c, id)
      ensures !ports.faulty ==> RowSettled(ports.cfg, old(ports.Now()), ports.Now(), c, id)
    {
      hide OnlyRow, IsRun, IsTidyRun, Fresh, VerdictOf, RowSettled, Good, Moves, InTurn, Outranked, Needed;
      hide Acceptable, Intact, KeyOf, HashTaken, NoneBefore, ClassResult.Accounted;
      failed := false;
      var migrated := MigrateBytes(c, id, row);
      if migrated.Err? {
        UploadOnlyRow(old(ports.Now()), ports.Now(), c, id);
        if !ports.faulty { FailureSettlesRow(ports.cfg, old(ports.Now()), ports.Now(), c, id); }
        return Progress(c, done, total, OutcomeOf(migrated.error), row.ref, false, false), failed;
      }
      ghost var w, mid := old(ports.Now()), ports.Now();
      var key, h := migrated.value.0, migrated.value.1;
      if !ports.faulty { ProspectsKept(c, id, old(run), w); }
      var outcome, deleted;
      outcome, deleted, failed := FinishRow(c, id, row, key, h, deleteLocal, done, total, result);
      PassOnlyRow(w, mid, ports.Now(), c, id);
      if !ports.faulty {
        PassSettlesRow(ports.cfg, w, ports.Now(), c, id);
        VerdictOfGood(ports.cfg, w, c, id);
      }
      p := Progress(c, done, total, outcome, if outcome.Migrated? then key else row.ref, deleted, false);
    }

    /** Without faults, uploading row id's bytes leaves its prospects as they were, its turn has come, and the
        unique index refuses it exactly when it does not move. */
    lemma ProspectsKept(c: PhotoClass, id: nat, earlier: seq<System>, w: World)
      requires Valid() && !ports.faulty && c in classes
      requires |earlier| > 0 && earlier <= run && earlier[|earlier| - 1].w == w
      requires w.Rows(c) == ports.Now().Rows(c) && w.local == ports.local && id in w.Rows(c)
      requires NoneBefore(ports.cfg, w, c, id) && Good(ports.cfg, w, c, w.Rows(c)[id])
      requires var row := w.Rows(c)[id];
               Intact(ports.cfg, ports.target, KeyOf(ports.cfg, c, row, w.local[row.ref]),
                      ports.cfg.digest(w.local[row.ref]))
      ensures Moves(ports.cfg, ports.Now(), c, id) <==> Moves(ports.cfg, w, c, id)
      ensures InTurn(ports.cfg, ports.Now(), c, id)
      ensures Moves(ports.cfg, ports.Now(), c, id)
              <==> !HashTaken(ports.Now(), c, id, w.Rows(c)[id], ports.cfg.digest(w.local[w.Rows(c)[id].ref]))
    {
      Progressed(earlier);
      SameProspects(ports.cfg, classes, w, ports.Now(), c, id);
      forall other | other in w.Rows(c) && other < id
        ensures !Moves(ports.cfg, ports.Now(), c, other)
      {
        SameProspects(ports.cfg, classes, w, ports.Now(), c, other);
      }
      InTurnIffNoneBefore(ports.cfg, ports.Now(), c, id);
      RefusedIffOutranked(ports.cfg, ports.Now(), c, id);
    }

    /** The pass over one local row, with all it tells. */
    method MigrateOne(c: PhotoClass, id: nat, row: Row, deleteLocal: bool, done: nat, total: nat, result: ClassResult)
      returns (ghost p: Progress, ghost failed: bool)
      requires InHand(c, id, row) && row.backend.Local? && result.Accounted()
      requires !ports.faulty ==> NoneBefore(ports.cfg, ports.Now(), c, id)
      modifies this`agent, this`run, ports, result
      ensures Valid() && agent.phase.Idle? && agent.seen == old(agent.seen) && old(run) <= run && result.Accounted()
      ensures OnlyRow(old(ports.Now()), ports.Now(), c, id)
      ensures TellsOfRow(ports.cfg, ports.faulty, deleteLocal, old(ports.Now()), ports.Now(), c, id, row, done, total,
                         p, failed, old(result.reports), result.reports, old(result.deletedLocal), result.deletedLocal)
      ensures failed ==>
                && |result.reports| == |old(result.reports)| + 2
                && var extra := result.reports[|old(result.reports)|];
                   extra.outcome == Error && extra.ref == row.ref && !extra.deletedLocal
      ensures !failed ==> |result.reports| == |old(result.reports)| + 1
      ensures !ports.faulty ==> RowSettled(ports.cfg, old(ports.Now()), ports.Now(), c, id)
    {
      hide IsRun, IsTidyRun, Fresh, VerdictOf, RowSettled, Needed, NoneBefore, ClassResult.Accounted;
      var progress;
      progress, failed := PassRow(c, id, row, deleteLocal, done, total, result);
      result.Tell(progress);
      p := progress;
    }

    // ---- The main loop ----

    /** Lists one page and notes the rows it returned. */
    method NextPage(c: PhotoClass, backend: Backend, after: nat) returns (r: Result<seq<(nat, Row)>, PortError>)
      requires Valid() && agent.phase.Idle?
      modifies this`agent, this`run
      ensures Valid() && agent.phase.Idle? && old(run) <= run
      ensures r.Ok? ==> IsPage(ports.Now().Rows(c), backend, after, batchSize, r.value)
      ensures r.Ok? ==> forall i | 0 <= i < |r.value| :: Listed(c, r.value[i].0, r.value[i].1) in agent.seen
      ensures !ports.faulty ==> r.Ok?
    {
      r := ports.ListByBackend(c, backend, after, batchSize);
      if r.Err? { return; }
      ghost var rows := set i | 0 <= i < |r.value| :: Listed(c, r.value[i].0, r.value[i].1);
      Advance(List(rows), agent.(seen := agent.seen + rows));
    }

    /** Where the main loop over one class stands. */
    ghost predicate AtCursor(c: PhotoClass, deleteLocal: bool, w0: World, after: nat, total: nat, result: ClassResult,
                             visited: seq<nat>)
      reads this, ports, result
    {
      && Valid() && agent.phase.Idle? && c in classes
      && ClassFrame(w0, ports.Now(), c, after) && VisitedUpTo(w0.Rows(c), Local, after, visited)
      && (forall f | f in w0.local :: f in run[0].w.local)
      && (!ports.faulty ==>
        SettledUpTo(ports.cfg, ports.Now(), c, after) && OnTheWay(ports.cfg, classes, w0, ports.Now()))
      && result.Accounted()
      && Told(ports.cfg, ports.faulty, deleteLocal, w0, ports.Now(), c, after, total, result.reports,
              result.deletedLocal, visited)
    }

    /** A row not yet visited is judged as it was when the pass over its class began. */
    lemma VerdictKept(c: PhotoClass, w0: World, after: nat, id: nat)
      requires Valid() && !ports.faulty && c in classes && ClassFrame(w0, ports.Now(), c, after)
      requires OnTheWay(ports.cfg, classes, w0, ports.Now()) && forall f | f in w0.local :: f in run[0].w.local
      requires IsNext(w0.Rows(c), Local, after, id)
      ensures VerdictOf(ports.cfg, ports.Now(), c, id) == VerdictOf(ports.cfg, w0, c, id)
    {
      hide OnTheWay, IsRun, IsTidyRun, VerdictOf;
      MigrationSafety.RunKeepsInv(ports.cfg, run, |run| - 1);
      assert MigrationSafety.RowsKept(ports.cfg, run[0].w, ports.Now(), c);
      SameVerdict(ports.cfg, classes, w0, ports.Now(), c, id);
    }

    /** One step of the main loop: the next local row in id order. */
    method MigrateNext(c: PhotoClass, ghost w0: World, ghost after: nat, id: nat, row: Row, deleteLocal: bool,
                       done: nat, total: nat, result: ClassResult, ghost visited: seq<nat>)
      requires AtCursor(c, deleteLocal, w0, after, total, result, visited) && done == |visited| + 1
      requires IsNext(w0.Rows(c), Local, after, id) && w0.Rows(c)[id] == row && Listed(c, id, row) in agent.seen
      modifies this`agent, this`run, ports, result
      ensures AtCursor(c, deleteLocal, w0, id, total, result, visited + [id])
      ensures agent.seen == old(agent.seen) && old(run) <= run
    {
      hide IsRun, IsTidyRun, Fresh, OnTheWay, VerdictOf, IsNext;
      hide OnlyRow, SettledUpTo, VisitedUpTo, RowSettled, ClassFrame;
      hide TellsOfRow, ClassResult.Accounted;
      ghost var w, reports, deleted := ports.Now(), result.reports, result.deletedLocal;
      NextIsUnchanged(w0, w, c, after, id);
      if !ports.faulty {
        SettledBefore(ports.cfg, w0, w, c, after, id);
        VerdictKept(c, w0, after, id);
      }
      assert |PerRow(reports)| == |visited|;
      hide Told;
      ghost var p, failed := MigrateOne(c, id, row, deleteLocal, done, total, result);
      CursorMoves(c, w0, w, after, id, visited, old(run));
      ToldNext(ports.cfg, ports.faulty, deleteLocal, w0, w, ports.Now(), c, after, id, total, p, failed,
               reports, result.reports, deleted, result.deletedLocal, visited);
    }

    lemma CursorMoves(c: PhotoClass, w0: World, w: World, after: nat, id: nat, visited: seq<nat>, earlier: seq<System>)
      requires Valid() && c in classes && |earlier| > 0 && earlier <= run && earlier[|earlier| - 1].w == w
      requires ClassFrame(w0, w, c, after) && OnlyRow(w, ports.Now(), c, id)
      requires VisitedUpTo(w0.Rows(c), Local, after, visited) && IsNext(w0.Rows(c), Local, after, id)
      requires !ports.faulty ==> SettledUpTo(ports.cfg, w, c, after) && RowSettled(ports.cfg, w, ports.Now(), c, id)
      requires !ports.faulty ==> OnTheWay(ports.cfg, classes, w0, w)
      ensures ClassFrame(w0, ports.Now(), c, id) && VisitedUpTo(w0.Rows(c), Local, id, visited + [id])
      ensures !ports.faulty ==>
                SettledUpTo(ports.cfg, ports.Now(), c, id) && OnTheWay(ports.cfg, classes, w0, ports.Now())
    {
      hide IsRun, IsTidyRun, Fresh, OnTheWay;
      FrameNext(w0, w, ports.Now(), c, after, id);
      VisitedNext(w0.Rows(c), Local, after, visited, id);
      if !ports.faulty {
        Progressed(earlier);
        OnTheWayTransitive(ports.cfg, classes, w0, w, ports.Now());
        SettledNext(ports.cfg, classes, w0, w, ports.Now(), c, after, id);
      }
    }

    /** The rows of one page, in order. */
    method MigratePage(c: PhotoClass, ghost w0: World, start: nat, rows: seq<(nat, Row)>, deleteLocal: bool, done: nat,
                       total: nat, result: ClassResult, ghost before: seq<nat>)
      returns (afterID: nat, processed: nat, ghost visited: seq<nat>)
      requires AtCursor(c, deleteLocal, w0, start, total, result, before) && done == |before|
      requires IsAscending(w0.Rows(c), Local, start, rows)
      requires forall j | 0 <= j < |rows| :: Listed(c, rows[j].0, rows[j].1) in agent.seen
      modifies this`agent, this`run, ports, result
      ensures AtCursor(c, deleteLocal, w0, afterID, total, result, visited) && processed == |visited| && old(run) <= run
      ensures |Above(w0.Rows(c), Local, afterID)| + |rows| == |Above(w0.Rows(c), Local, start)|
    {
      hide Valid, ClassFrame, SettledUpTo, OnTheWay, Told, ClassResult.Accounted;
      afterID, processed, visited := start, done, before;
      for i := 0 to |rows|
        invariant AtCursor(c, deleteLocal, w0, afterID, total, result, visited) && processed == |visited|
        invariant afterID == CursorAt(rows, start, i) && agent.seen == old(agent.seen) && old(run) <= run
        invariant |Above(w0.Rows(c), Local, afterID)| + i == |Above(w0.Rows(c), Local, start)|
      {
        var (id, row) := rows[i];
        assert Follows(w0.Rows(c), Local, start, rows, i);
        VisitedNext(w0.Rows(c), Local, afterID, visited, id);
        processed := processed + 1;
        MigrateNext(c, w0, afterID, id, row, deleteLocal, processed, total, result, visited);
        visited, afterID := visited + [id], id;
      }
    }

    /** The main loop over one class: pages of local rows, until a listing comes back empty. */
    method MigrateRows(c: PhotoClass, deleteLocal: bool, total: nat, result: ClassResult)
      returns (ok: bool, ghost last: nat, ghost visited: seq<nat>)
      requires AtCursor(c, deleteLocal, ports.Now(), 0, total, result, [])
      modifies this`agent, this`run, ports, result
      ensures Valid() && agent.phase.Idle? && old(run) <= run
      ensures !deleteLocal ==> ports.local == old(ports.local)
      ensures ok ==> AtCursor(c, deleteLocal, old(ports.Now()), last, total, result, visited)
      ensures ok ==> Above(old(ports.Now()).Rows(c), Local, last) == {}
      ensures !ports.faulty ==> ok
    {
      hide IsRun, IsTidyRun, Fresh, VisitedUpTo, SettledUpTo, OnTheWay, ClassFrame, ClassResult.Accounted;
      hide NoLocalUpTo, ReclaimsUpTo, Numbered, PerRow, Judged, Troubled, FailedDeletes;
      ghost var w0 := ports.Now();
      var afterID, processed := 0, 0;
      visited := [];
      while true
        invariant AtCursor(c, deleteLocal, w0, afterID, total, result, visited) && processed == |visited|
        invariant old(run) <= run
        decreases |Above(w0.Rows(c), Local, afterID)|
      {
        var page := NextPage(c, Local, afterID);
        if page.Err? { return false, afterID, visited; }
        FrameSamePages(w0, ports.Now(), c, afterID, batchSize, page.value);
        if |page.value| == 0 { return true, afterID, visited; }
        afterID, processed, visited :=
          MigratePage(c, w0, afterID, page.value, deleteLocal, processed, total, result, visited);
      }
    }

    lemma StartsAtCursor(c: PhotoClass, deleteLocal: bool, total: nat, result: ClassResult)
      requires Valid() && agent.phase.Idle? && c in classes
      requires result.c == c && result.Accounted() && result.reports == [] && result.deletedLocal == 0
      ensures AtCursor(c, deleteLocal, ports.Now(), 0, total, result, [])
    {
      MigrationSafety.RunKeepsInv(ports.cfg, run, |run| - 1);
      OnTheWayReflexive(ports.cfg, classes, ports.Now());
    }

    /** The count, the main loop and its verdict for one class, before any sweep. */
    method MigrateLocalRows(c: PhotoClass, deleteLocal: bool, result: ClassResult)
      returns (ok: bool, ghost a: Account)
      requires Valid() && agent.phase.Idle? && c in classes
      requires result.c == c && result.Accounted() && result.reports == [] && result.deletedLocal == 0
      modifies this`agent, this`run, ports, result
      ensures Valid() && agent.phase.Idle? && old(run) <= run
      ensures ok ==> IsMainAccountOf(ports.cfg, ports.faulty, deleteLocal, result, a)
      ensures ok ==> a.before == old(ports.Now()) && a.loop == a.after == ports.Now() && a.bad == {}
      ensures !deleteLocal ==> ports.local == old(ports.local)
      ensures !ports.faulty ==> ok && ClassSettled(ports.cfg, ports.Now(), c)
    {
      hide IsRun, IsTidyRun, Fresh, OnTheWay, ClassSettled, Told, IsMainAccountOf, ClassFrame, VisitedUpTo, SettledUpTo;
      ghost var w0 := ports.Now();
      a := Account(w0, w0, w0, [], 0, {});
      var refs := ports.ListAllStorageRefs(c, Local);
      if refs.Err? { return false, a; }
      StartsAtCursor(c, deleteLocal, |refs.value|, result);
      ghost var last, visited;
      ok, last, visited := MigrateRows(c, deleteLocal, |refs.value|, result);
      if ok {
        if !ports.faulty { LoopSettles(ports.cfg, w0, ports.Now(), c, last); }
        a := Account(w0, ports.Now(), ports.Now(), visited, FailedDeletes(result.reports), {});
        LoopIsTold(ports.cfg, ports.faulty, deleteLocal, result, a, last, |refs.value|);
      }
    }

    // ---- The sweep ----

    /** One row already on the target: its leftover local file goes once both copies are verified. */
    method SweepOne(c: PhotoClass, id: nat, row: Row) returns (ok: bool, deleted: bool, integrityFailed: bool)
      requires Valid() && agent.phase.Idle? && c in classes && Listed(c, id, row) in agent.seen
      requires id in ports.Now().Rows(c) && ports.Now().Rows(c)[id] == row && row.backend.S3?
      modifies this`agent, this`run, ports`local
      ensures Valid() && agent == old(agent) && old(run) <= run
      ensures ports.local == if deleted then old(ports.local) - {row.ref} else old(ports.local)
      ensures deleted ==> Leftover(ports.cfg, old(ports.Now()), c, id)
      ensures integrityFailed ==> !deleted && id in Suspects(ports.cfg, old(ports.Now()), c)
      ensures !ports.faulty ==> ok && (deleted <==> Leftover(ports.cfg, old(ports.Now()), c, id))
      ensures !ports.faulty ==> (integrityFailed <==> BadTarget(ports.cfg, old(ports.Now()), row))
    {
      hide IsRun, IsTidyRun, Fresh, Intact, References;
      var file := ports.OpenLocal(row.ref);
      if file.Err? { return file.error.NotFound?, false, false; }
      Advance(SweepOpen(Listed(c, id, row)), agent.(phase := SweepOpened(c, id, row, file.value)));
      var read := ports.Read(file.value, |file.value|);
      if read.Err? { Drop(); return false, false, false; }
      var hash := ports.cfg.digest(read.value);
      if row.hash.None? || hash != row.hash.value { Drop(); return true, false, false; }
      var intact := VerifyTargetObject(row.ref, hash);
      if !intact { Drop(); return true, false, true; }
      Advance(SweepReadBack, agent.(phase := Release(c, id, row.ref, row.ref, hash)));
      var freed := DeleteLocalIfUnreferenced(row.ref);
      return freed.Ok?, freed == Ok(true), false;
    }

    /** Where the sweep over one class stands: how many files went, and which rows' objects could not be trusted. */
    ghost predicate SweepAt(c: PhotoClass, w0: World, after: nat, deleted: nat, bad: set<PhotoId>)
      reads this, ports
    {
      && Valid() && agent.phase.Idle? && c in classes
      && SweptFrom(ports.cfg, ports.faulty, w0, ports.Now(), c, after, deleted, bad)
    }

    /** One step of the sweep. */
    method SweepNext(c: PhotoClass, ghost w0: World, ghost after: nat, id: nat, row: Row, deletedBefore: nat,
                     failuresBefore: nat, ghost badBefore: set<PhotoId>)
      returns (ok: bool, deleted: nat, failures: nat, ghost bad: set<PhotoId>)
      requires SweepAt(c, w0, after, deletedBefore, badBefore) && Listed(c, id, row) in agent.seen
      requires IsNext(w0.Rows(c), S3, after, id) && w0.Rows(c)[id] == row && failuresBefore == |badBefore|
      modifies this`agent, this`run, ports`local
      ensures SweepAt(c, w0, id, deleted, bad) && failures == |bad|
      ensures agent == old(agent) && old(run) <= run
      ensures !ports.faulty ==> ok
    {
      hide IsRun, IsTidyRun, Fresh;
      ghost var w := ports.Now();
      SweepUnchanged(ports.cfg, ports.faulty, w0, w, c, after, deletedBefore, badBefore, id);
      hide SweptFrom, Leftover, Suspects, BadTarget, IsNext;
      var gone, failed;
      ok, gone, failed := SweepOne(c, id, row);
      deleted := if gone then deletedBefore + 1 else deletedBefore;
      failures := if failed then failuresBefore + 1 else failuresBefore;
      bad := Including(badBefore, id, failed);
      SweptFromNext(ports.cfg, ports.faulty, w0, w, ports.Now(), c, after, id, gone, failed, deletedBefore, badBefore);
    }

    method SweepPage(c: PhotoClass, ghost w0: World, start: nat, rows: seq<(nat, Row)>, deletedBefore: nat,
                     failuresBefore: nat, ghost badBefore: set<PhotoId>)
      returns (ok: bool, afterID: nat, deleted: nat, failures: nat, ghost bad: set<PhotoId>)
      requires SweepAt(c, w0, start, deletedBefore, badBefore) && failuresBefore == |badBefore|
      requires IsAscending(w0.Rows(c), S3, start, rows)
      requires forall j | 0 <= j < |rows| :: Listed(c, rows[j].0, rows[j].1) in agent.seen
      modifies this`agent, this`run, ports`local
      ensures SweepAt(c, w0, afterID, deleted, bad) && failures == |bad| && old(run) <= run
      ensures ok ==> |Above(w0.Rows(c), S3, afterID)| + |rows| == |Above(w0.Rows(c), S3, start)|
      ensures !ports.faulty ==> ok
    {
      hide SweepAt, Above;
      ok, afterID, deleted, failures, bad := true, start, deletedBefore, failuresBefore, badBefore;
      for i := 0 to |rows|
        invariant SweepAt(c, w0, afterID, deleted, bad) && failures == |bad| && ok
        invariant old(run) <= run && agent.seen == old(agent.seen) && afterID == CursorAt(rows, start, i)
        invariant |Above(w0.Rows(c), S3, afterID)| + i == |Above(w0.Rows(c), S3, start)|
      {
        assert Follows(w0.Rows(c), S3, start, rows, i);
        AboveNext(w0.Rows(c), S3, afterID, rows[i].0);
        ok, deleted, failures, bad :=
          SweepNext(c, w0, afterID, rows[i].0, rows[i].1, deleted, failures, bad);
        afterID := rows[i].0;
        if !ok { return; }
      }
    }

    /** The sweep over one class: how many files went, and how many rows' objects could not be trusted (`bad`). */
    method SweepRows(c: PhotoClass) returns (ok: bool, deleted: nat, failures: nat, ghost bad: set<PhotoId>)
      requires Valid() && agent.phase.Idle? && c in classes
      modifies this`agent, this`run, ports`local
      ensures Valid() && agent.phase.Idle? && old(run) <= run
      ensures OnlyIntactGone(ports.cfg, old(ports.Now()), ports.Now())
      ensures deleted + |ports.local| == |old(ports.local)|
      ensures failures == |bad| && bad <= Suspects(ports.cfg, old(ports.Now()), c)
      ensures !ports.faulty ==> ok && forall id: nat :: !Leftover(ports.cfg, ports.Now(), c, id)
      ensures !ports.faulty ==> bad == BadTargets(ports.cfg, old(ports.Now()), c)
    {
      ghost var w0 := ports.Now();
      SweepStarts(ports.cfg, ports.faulty, w0, c);
      hide IsRun, IsTidyRun, Fresh, Leftover, Suspects, BadTargets, OnlyIntactGone, SweptFrom;
      var afterID := 0;
      ok, deleted, failures, bad := true, 0, 0, {};
      while true
        invariant SweepAt(c, w0, afterID, deleted, bad) && failures == |bad| && old(run) <= run && ok
        decreases |Above(w0.Rows(c), S3, afterID)|
      {
        SweptSoFar(ports.cfg, ports.faulty, w0, ports.Now(), c, afterID, deleted, bad);
        var page := NextPage(c, S3, afterID);
        if page.Err? { return false, deleted, failures, bad; }
        if |page.value| == 0 { return; }
        ok, afterID, deleted, failures, bad := SweepPage(c, w0, afterID, page.value, deleted, failures, bad);
        SweptSoFar(ports.cfg, ports.faulty, w0, ports.Now(), c, afterID, deleted, bad);
        if !ok { return; }
      }
    }

    // ---- One class ----

    /** The sweep, with its counts added to the class's. */
    method SweepClass(c: PhotoClass, result: ClassResult, ghost main: Account) returns (ok: bool, ghost a: Account)
      requires Valid() && agent.phase.Idle? && c in classes && result.c == c
      requires IsMainAccountOf(ports.cfg, ports.faulty, true, result, main) && main.loop == ports.Now()
      requires !ports.faulty ==> ClassSettled(ports.cfg, ports.Now(), c)
      modifies this`agent, this`run, ports`local, result
      ensures Valid() && agent.phase.Idle? && old(run) <= run
      ensures ok ==> IsAccountOf(ports.cfg, ports.faulty, true, result, a)
      ensures a.before == main.before && a.loop == main.loop && a.after == ports.Now()
      ensures !ports.faulty ==> ok && ClassSettled(ports.cfg, ports.Now(), c)
      ensures !ports.faulty ==> forall id: nat :: !Leftover(ports.cfg, ports.Now(), c, id)
    {
      hide IsRun, IsTidyRun, Fresh, OnTheWay, ClassSettled, Leftover, ClassChange, EveryId, Judged, Reclaims, NoLocal;
      hide OnlyIntactGone, Troubled, PerRow, Count, FailedDeletes, Numbered, Suspects, BadTargets;
      var deleted, failed;
      ghost var bad;
      ok, deleted, failed, bad := SweepRows(c);
      a := main.(after := ports.Now(), bad := bad);
      result.deletedLocal := result.deletedLocal + deleted;
      result.targetIntegrityFailures := result.targetIntegrityFailures + failed;
      if !ports.faulty {
        Progressed(old(run));
        StaysSettled(ports.cfg, classes, old(ports.Now()), ports.Now(), c);
      }
    }

    /** One class: the local rows, then the sweep when local files are to go, and the account of both. */
    method MigrateClass(c: PhotoClass, deleteLocal: bool) returns (r: Option<ClassResult>, ghost a: Account)
      requires Valid() && agent.phase.Idle? && c in classes
      modifies this`agent, this`run, ports
      ensures Valid() && agent.phase.Idle? && old(run) <= run
      ensures r.Some? ==> fresh(r.value) && r.value.c == c
      ensures r.Some? ==> IsAccountOf(ports.cfg, ports.faulty, deleteLocal, r.value, a)
      ensures r.Some? ==> a.before == old(ports.Now()) && a.after == ports.Now()
      ensures !deleteLocal ==> ports.local == old(ports.local)
      ensures !ports.faulty ==> r.Some? && ClassSettled(ports.cfg, ports.Now(), c)
      ensures !ports.faulty && deleteLocal ==> forall id: nat :: !Leftover(ports.cfg, ports.Now(), c, id)
    {
      hide Valid, ClassSettled, Leftover, IsAccountOf, IsMainAccountOf, ClassResult.Accounted;
      var result := new ClassResult(c);
      var ok;
      ok, a := MigrateLocalRows(c, deleteLocal, result);
      if !ok { return None, a; }
      if deleteLocal {
        ok, a := SweepClass(c, result, a);
        if !ok { return None, a; }
      } else {
        MainIsWhole(ports.cfg, ports.faulty, result, a);
      }
      r := Some(result);
    }

    // ---- Several classes ----

    /** A run of this process that started in w0 and has finished the classes in `processed`. */
    ghost predicate Running(w0: World, processed: set<PhotoClass>, deleteLocal: bool)
      reads this, ports
    {
      && Valid() && agent.phase.Idle? && run[0] == System(w0, [Agent({}, Idle)]) && processed <= classes
      && (!ports.faulty ==>
            Processed(ports.cfg, classes, ports.Now(), processed, deleteLocal && Canonical(ports.cfg, w0)))
    }

    lemma OneMoreProcessed(w0: World, earlier: seq<System>, w: World, c: PhotoClass, processed: set<PhotoClass>,
                           swept: bool)
      requires Valid() && !ports.faulty && c in classes && processed <= classes
      requires |earlier| > 0 && earlier <= run && earlier[|earlier| - 1].w == w
      requires run[0] == System(w0, [Agent({}, Idle)])
      requires Processed(ports.cfg, classes, w, processed, swept) && (swept ==> Canonical(ports.cfg, w0))
      requires ClassChange(w, ports.Now(), c) && ClassSettled(ports.cfg, ports.Now(), c)
      requires swept ==> forall id: nat :: !Leftover(ports.cfg, ports.Now(), c, id)
      ensures Processed(ports.cfg, classes, ports.Now(), processed + {c}, swept)
    {
      hide Leftover, ClassSettled, ClassChange, Processed, OnTheWay, LocalOnTheWay, Canonical, IsRun, Fresh;
      Progressed(earlier);
      TidyRunIsClean(ports.cfg, classes, run);
      if swept { CleanRunLocalOnTheWay(ports.cfg, classes, run, |earlier| - 1); }
      ProcessedNext(ports.cfg, classes, w, ports.Now(), processed, swept, c);
    }

    /** One requested class of a run, with what that leaves true of those before it. */
    method MigrateNextClass(c: PhotoClass, deleteLocal: bool, ghost w0: World, ghost processed: set<PhotoClass>)
      returns (r: Option<ClassResult>, ghost a: Account)
      requires Running(w0, processed, deleteLocal) && c in classes
      modifies this`agent, this`run, ports
      ensures Valid() && (r.Some? ==> Running(w0, processed + {c}, deleteLocal)) && old(run) <= run
      ensures r.Some? ==> fresh(r.value) && r.value.c == c && ClassChange(old(ports.Now()), ports.Now(), c)
      ensures r.Some? ==> IsAccountOf(ports.cfg, ports.faulty, deleteLocal, r.value, a)
      ensures r.Some? ==> a.before == old(ports.Now()) && a.after == ports.Now()
      ensures r.Some? && !r.value.HasFindings() ==> NoLocal(ports.Now().Rows(c))
      ensures r.Some? && !r.value.HasFindings() && deleteLocal ==> Reclaims(old(ports.Now()), ports.Now(), c)
      ensures !deleteLocal ==> ports.local == old(ports.local)
      ensures !ports.faulty ==> r.Some?
    {
      hide IsRun, IsTidyRun, Fresh, ClassChange, NoLocal, ClassSettled, Leftover, Processed, Canonical, Reclaims;
      hide IsAccountOf, ClassResult.HasFindings;
      r, a := MigrateClass(c, deleteLocal);
      if r.Some? { AccountGives(ports.cfg, ports.faulty, deleteLocal, r.value, a); }
      if !ports.faulty {
        OneMoreProcessed(w0, old(run), old(ports.Now()), c, processed, deleteLocal && Canonical(ports.cfg, w0));
      }
    }

    /** The requested classes in turn, up to the first that cannot be done. */
    method MigrateClasses(todo: seq<PhotoClass>, deleteLocal: bool, ghost w0: World)
      returns (r: Option<seq<ClassResult>>, ghost accounts: seq<Account>)
      requires Running(w0, {}, deleteLocal) && ports.Now() == w0 && classes == Members(todo) * {Album, ChoreProof}
      modifies this`agent, this`run, ports
      ensures Valid() && old(run) <= run
      ensures r.Some? ==> Running(w0, classes, deleteLocal) && classes == Members(todo)
      ensures r.Some? ==> |r.value| == |todo| && forall i | 0 <= i < |todo| :: r.value[i].c == todo[i]
      ensures r.Some? ==> AreAccounts(ports.cfg, ports.faulty, deleteLocal, r.value, accounts)
      ensures r.Some? ==> Chained(accounts, w0) && ports.Now() == Reached(accounts, w0, |accounts|)
      ensures r.Some? && !HasFindings(r.value) ==> AllMigrated(w0, ports.Now(), classes, deleteLocal)
      ensures !deleteLocal ==> ports.local == old(ports.local)
      ensures !ports.faulty ==> (r.Some? <==> Members(todo) <= {Album, ChoreProof})
    {
      hide Recorded, ClassSettled, Leftover, Canonical, ClassChange, HasFindings, ClassResult.HasFindings, AllMigrated;
      hide IsAccountOf, Chained, UntouchedBut, NoLocal, Reclaims;
      var results: seq<ClassResult> := [];
      accounts := [];
      NothingToldYet(ports.cfg, ports.faulty, deleteLocal, w0);
      NothingMigratedYet(w0, deleteLocal);
      assert todo[..0] == [] && Members([]) == {};
      for i := 0 to |todo|
        invariant Running(w0, Members(todo[..i]), deleteLocal) && old(run) <= run
        invariant forall x | x in results :: fresh(x)
        invariant |results| == i && forall k | 0 <= k < i :: results[k].c == todo[k]
        invariant AreAccounts(ports.cfg, ports.faulty, deleteLocal, results, accounts)
        invariant Chained(accounts, w0) && ports.Now() == Reached(accounts, w0, |accounts|)
        invariant UntouchedBut(w0, ports.Now(), Members(todo[..i]))
        invariant !HasFindings(results) ==> AllMigrated(w0, ports.Now(), Members(todo[..i]), deleteLocal)
        invariant !deleteLocal ==> ports.local == old(ports.local)
      {
        var c := todo[i];
        MembersNext(todo, i);
        if c != Album && c != ChoreProof { return None, accounts; }
        ghost var w := ports.Now();
        var one;
        ghost var a;
        one, a := MigrateNextClass(c, deleteLocal, w0, Members(todo[..i]));
        if one.None? { return None, accounts; }
        FindingsNext(results, one.value);
        ClassesNext(w0, w, ports.Now(), Members(todo[..i]), c, deleteLocal);
        AccountsNext(ports.cfg, ports.faulty, deleteLocal, results, accounts, one.value, a);
        ChainedNext(accounts, w0, a);
        assert todo[..i + 1] == todo[..i] + [c];
        results, accounts := results + [one.value], accounts + [a];
      }
      assert todo[..|todo|] == todo;
      r := Some(results);
    }

    /** Starts a run of this process over the requested classes; no class at all stands for both. */
    method Migrate(requested: seq<PhotoClass>, deleteLocal: bool)
      returns (r: Option<seq<ClassResult>>, ghost accounts: seq<Account>)
      requires batchSize > 0
      modifies this, ports
      ensures Valid() && run[0] == System(old(ports.Now()), [Agent({}, Idle)])
      ensures r.Some? ==> classes == if requested == [] then {Album, ChoreProof} else Members(requested)
      ensures r.Some? && requested == [] ==> |r.value| == 2 && r.value[0].c == Album && r.value[1].c == ChoreProof
      ensures r.Some? && requested != [] ==>
                |r.value| == |requested| && forall i | 0 <= i < |requested| :: r.value[i].c == requested[i]
      ensures r.Some? ==> AreAccounts(ports.cfg, ports.faulty, deleteLocal, r.value, accounts)
      ensures r.Some? ==> Chained(accounts, old(ports.Now()))
      ensures r.Some? ==> ports.Now() == Reached(accounts, old(ports.Now()), |accounts|)
      ensures r.Some? && !HasFindings(r.value) ==> AllMigrated(old(ports.Now()), ports.Now(), classes, deleteLocal)
      ensures r.Some? && !HasFindings(r.value) ==>
                forall c, id | c in classes && id in ports.Now().Rows(c) :: ports.Now().Rows(c)[id].backend == S3
      ensures r.Some? && !HasFindings(r.value) && requested == [] ==>
                && (forall id | id in ports.album :: ports.album[id].backend == S3)
                && (forall id | id in ports.chore :: ports.chore[id].backend == S3)
      ensures !deleteLocal ==> ports.local == old(ports.local)
      ensures !ports.faulty ==> (r.Some? <==> forall c | c in requested :: c == Album || c == ChoreProof)
      ensures !ports.faulty && r.Some? ==> Completes(ports.cfg, classes, old(ports.Now()), ports.Now())
      ensures !ports.faulty && r.Some? && Canonical(ports.cfg, old(ports.Now())) ==>
                && LocalOnTheWay(ports.cfg, classes, old(ports.Now()), ports.Now())
                && (deleteLocal ==> Swept(ports.cfg, classes, ports.Now()))
      ensures !ports.faulty && r.Some? ==>
                (HasFindings(r.value) <==>
                   exists i :: 0 <= i < |accounts| && HasTrouble(ports.cfg, r.value[i].c, accounts[i]))
    {
      hide Completes, Canonical, LocalOnTheWay, Swept, IsAccountOf, Chained, HasFindings, HasTrouble, Reclaims;
      var todo := if |requested| == 0 then MIGRATABLE_CLASSES else requested;
      assert requested == [] ==> Members(todo) == {Album, ChoreProof};
      assert forall c :: c in requested <==> c in Members(requested);
      ghost var w0 := ports.Now();
      agent := Agent({}, Idle);
      run := [System(w0, [agent])];
      classes := Members(todo) * {Album, ChoreProof};
      r, accounts := MigrateClasses(todo, deleteLocal, w0);
      if !ports.faulty && r.Some? {
        RunCompletes(w0, deleteLocal);
        ExitCodeIsExact(ports.cfg, deleteLocal, r.value, accounts);
      }
    }

    lemma RunCompletes(w0: World, deleteLocal: bool)
      requires Running(w0, classes, deleteLocal) && !ports.faulty
      ensures Completes(ports.cfg, classes, w0, ports.Now())
      ensures Canonical(ports.cfg, w0) ==>
                && LocalOnTheWay(ports.cfg, classes, w0, ports.Now())
                && (deleteLocal ==> Swept(ports.cfg, classes, ports.Now()))
    {
      Progressed(run[..1]);
      assert Settled(ports.cfg, classes, ports.Now()) by {
        forall c | c in classes
          ensures ClassSettled(ports.cfg, ports.Now(), c)
        {
        }
      }
      if Canonical(ports.cfg, w0) {
        TidyRunIsClean(ports.cfg, classes, run);
        CleanRunLocalOnTheWay(ports.cfg, classes, run, |run| - 1);
        if deleteLocal { NothingLeftIsSwept(ports.cfg, classes, ports.Now()); }
      }
    }
  }
}
