/** Which local files a fault-free migration with local deletion leaves, when refs are canonical. */
module MigrationReclaim {
  import opened Prelude
  import opened StorageKeys
  import opened Photos
  import opened MigrationProtocol
  import opened MigrationOutcome

  /** Every ref is filed under its own table's class, a row that will be uploaded already has its canonical
      ref, and no chore row lacks a content hash. */
  ghost predicate Canonical(cfg: Config, w: World) {
    && (forall c, id | id in w.Rows(c) :: ClassOfKey(w.Rows(c)[id].ref) == Some(c))
    && (forall c, id | id in w.Rows(c) && Good(cfg, w, c, w.Rows(c)[id]) ::
          w.Rows(c)[id].ref == KeyOf(cfg, c, w.Rows(c)[id], w.local[w.Rows(c)[id].ref]))
    && (forall id | id in w.chore :: w.chore[id].hash.Some?)
  }

  ghost predicate OwnedBy(cfg: Config, cs: set<PhotoClass>, w: World, f: Ref, c: PhotoClass, id: nat)
    requires f in w.local
  {
    && c in cs && id in w.Rows(c)
    && var row := FutureRow(cfg, cs, w, c, id);
    row.backend.S3? && row.ref == f && row.hash == Some(cfg.digest(w.local[f]))
  }

  /** The files that go: a migrated row of cs points at the same key with the same hash, the target will
      hold those bytes intact, and no row stays local that needs the file. */
  ghost predicate Reclaimed(cfg: Config, cs: set<PhotoClass>, w: World, f: Ref) {
    && f in w.local
    && (exists c, id :: OwnedBy(cfg, cs, w, f, c, id))
    && FutureKey(cfg, cs, w, f)
    && (f in w.target ==> Intact(cfg, w.target, f, cfg.digest(w.local[f])))
    && (forall c, id | id in w.Rows(c) :: var row := FutureRow(cfg, cs, w, c, id); row.backend.Local? ==> row.ref != f)
  }

  /** Files between two states of a run: only reclaimable ones went, and the rest are judged alike. */
  ghost predicate LocalOnTheWay(cfg: Config, cs: set<PhotoClass>, w0: World, w: World) {
    && (forall f | f in w0.local && f !in w.local :: Reclaimed(cfg, cs, w0, f))
    && (forall f | f in w.local :: Reclaimed(cfg, cs, w, f) <==> Reclaimed(cfg, cs, w0, f))
  }

  /** What a process about to free a local file has established, when refs are canonical. */
  ghost predicate CanonicalPhase(w: World, p: Phase) {
    p.Release? || p.AlbumFree? || p.Unreferenced? ==>
      p.ref == p.key && p.id in w.Rows(p.c) && w.Rows(p.c)[p.id].hash == Some(p.h)
  }

  lemma CanonicalStaysCanonical(cfg: Config, cs: set<PhotoClass>, w: World, w': World)
    requires Canonical(cfg, w) && OnTheWay(cfg, cs, w, w')
    requires forall c, id | id in w'.Rows(c) ::
               w'.Rows(c)[id] == w.Rows(c)[id] || w'.Rows(c)[id] == FutureRow(cfg, cs, w, c, id)
    ensures Canonical(cfg, w')
  {
    forall c, id | id in w'.Rows(c)
      ensures ClassOfKey(w'.Rows(c)[id].ref) == Some(c)
    {
      var row := w.Rows(c)[id];
      if w'.Rows(c)[id] != row {
        ClassOfBuiltKey(row.household, c, cfg.digest(w.local[row.ref]), ExtensionForContentType(row.contentType).value);
      }
    }
    forall c, id | id in w'.Rows(c) && Good(cfg, w', c, w'.Rows(c)[id])
      ensures w'.Rows(c)[id].ref == KeyOf(cfg, c, w'.Rows(c)[id], w'.local[w'.Rows(c)[id].ref])
    {
      UploadsTraceBack(cfg, cs, w, w', c, id, KeyOf(cfg, c, w'.Rows(c)[id], w'.local[w'.Rows(c)[id].ref]));
    }
    forall id | id in w'.chore
      ensures w'.chore[id].hash.Some?
    {
      assert w'.Rows(ChoreProof)[id] == w'.chore[id] && w.Rows(ChoreProof)[id] == w.chore[id];
    }
  }

  /** Between two states with the same outcome, a surviving file is judged alike as soon as the object at
      its key is. */
  lemma SameJudgementOfFile(cfg: Config, cs: set<PhotoClass>, w: World, w': World, f: Ref)
    requires OnTheWay(cfg, cs, w, w') && f in w'.local
    requires (f in w'.target ==> Intact(cfg, w'.target, f, cfg.digest(w.local[f])))
        <==> (f in w.target ==> Intact(cfg, w.target, f, cfg.digest(w.local[f])))
    ensures Reclaimed(cfg, cs, w', f) <==> Reclaimed(cfg, cs, w, f)
  {
    forall c, id
      ensures OwnedBy(cfg, cs, w', f, c, id) <==> OwnedBy(cfg, cs, w, f, c, id)
    {
    }
  }

  lemma StepMovesToFutureRows(cfg: Config, cs: set<PhotoClass>, act: Action, w: World, a: Agent, w': World, a': Agent)
    requires CleanPhase(cfg, cs, w, a.phase) && CleanTake(cfg, cs, act, w, a, w', a')
    ensures forall c, id | id in w'.Rows(c) ::
              id in w.Rows(c) && (w'.Rows(c)[id] == w.Rows(c)[id] || w'.Rows(c)[id] == FutureRow(cfg, cs, w, c, id))
  {
    if act.Flip? { VerifiedIsFlippable(cfg, cs, w, a.phase); }
  }

  lemma CleanStepJudgesFilesAlike(cfg: Config, cs: set<PhotoClass>, act: Action, w: World, a: Agent, w': World,
                                  a': Agent, f: Ref)
    requires CleanPhase(cfg, cs, w, a.phase) && CleanTake(cfg, cs, act, w, a, w', a')
    requires Canonical(cfg, w) && OnTheWay(cfg, cs, w, w') && f in w'.local
    ensures Reclaimed(cfg, cs, w', f) <==> Reclaimed(cfg, cs, w, f)
  {
    var p := a.phase;
    if act.Put? && f == KeyOf(cfg, p.c, p.row, p.data) {
      assert Good(cfg, w, p.c, w.Rows(p.c)[p.id]);
      assert w.Rows(p.c)[p.id].ref == f;
    }
    SameJudgementOfFile(cfg, cs, w, w', f);
  }

  lemma CleanStepLocalOnTheWay(cfg: Config, cs: set<PhotoClass>, act: Action, w: World, a: Agent, w': World, a': Agent)
    requires CleanPhase(cfg, cs, w, a.phase) && CleanTake(cfg, cs, act, w, a, w', a')
    requires Canonical(cfg, w) && CanonicalPhase(w, a.phase) && OnTheWay(cfg, cs, w, w')
    ensures LocalOnTheWay(cfg, cs, w, w')
    ensures Canonical(cfg, w')
  {
    StepMovesToFutureRows(cfg, cs, act, w, a, w', a');
    CanonicalStaysCanonical(cfg, cs, w, w');
    forall f | f in w'.local
      ensures Reclaimed(cfg, cs, w', f) <==> Reclaimed(cfg, cs, w, f)
    {
      CleanStepJudgesFilesAlike(cfg, cs, act, w, a, w', a', f);
    }
    forall f | f in w.local && f !in w'.local
      ensures Reclaimed(cfg, cs, w, f)
    {
      DeletedWasReclaimed(cfg, cs, w, a.phase);
    }
  }

  lemma CleanStepCanonicalPhase(cfg: Config, cs: set<PhotoClass>, act: Action, w: World, a: Agent, w': World, a': Agent)
    requires CleanPhase(cfg, cs, w, a.phase) && CleanTake(cfg, cs, act, w, a, w', a')
    requires Canonical(cfg, w) && CanonicalPhase(w, a.phase)
    ensures CanonicalPhase(w', a'.phase)
  {
  }

  lemma DeletedWasReclaimed(cfg: Config, cs: set<PhotoClass>, w: World, p: Phase)
    requires p.Unreferenced? && CleanPhase(cfg, cs, w, p) && CanonicalPhase(w, p) && p.ref in w.local
    ensures Reclaimed(cfg, cs, w, p.ref)
  {
    assert OwnedBy(cfg, cs, w, p.ref, p.c, p.id);
    forall c, id | id in w.Rows(c) && FutureRow(cfg, cs, w, c, id).backend.Local?
      ensures FutureRow(cfg, cs, w, c, id).ref != p.ref
    {
      LocalRowReferences(w.Rows(c), id);
    }
  }

  lemma {:induction false} CleanRunLocalOnTheWay(cfg: Config, cs: set<PhotoClass>, run: seq<System>, n: nat)
    requires IsCleanRun(cfg, cs, run) && run[0].agents[0].phase.Idle? && n < |run| && Canonical(cfg, run[0].w)
    ensures |run[n].agents| == 1 && Canonical(cfg, run[n].w) && CanonicalPhase(run[n].w, run[n].agents[0].phase)
    ensures LocalOnTheWay(cfg, cs, run[0].w, run[n].w)
  {
    assert LocalOnTheWay(cfg, cs, run[0].w, run[0].w) && CanonicalPhase(run[0].w, run[0].agents[0].phase);
    hide OnTheWay, LocalOnTheWay, Canonical, CanonicalPhase, CleanPhase, CleanStep;
    if n > 0 {
      CleanRunLocalOnTheWay(cfg, cs, run, n - 1);
      CleanRunOnTheWay(cfg, cs, run, 0, n - 1);
      assert CleanStepAt(cfg, cs, run, n - 1);
      OneMoreCleanStep(cfg, cs, run[0].w, run[n - 1], run[n]);
    }
  }

  lemma OneMoreCleanStep(cfg: Config, cs: set<PhotoClass>, w0: World, s: System, s': System)
    requires CleanStep(cfg, cs, s, s') && CleanPhase(cfg, cs, s.w, s.agents[0].phase)
    requires OnTheWay(cfg, cs, w0, s.w) && LocalOnTheWay(cfg, cs, w0, s.w)
    requires Canonical(cfg, s.w) && CanonicalPhase(s.w, s.agents[0].phase)
    ensures LocalOnTheWay(cfg, cs, w0, s'.w) && Canonical(cfg, s'.w) && CanonicalPhase(s'.w, s'.agents[0].phase)
  {
    hide OnTheWay, LocalOnTheWay, Canonical, CanonicalPhase, CleanPhase, CleanTake;
    var act :| CleanTake(cfg, cs, act, s.w, s.agents[0], s'.w, s'.agents[0]);
    CleanStepOnTheWay(cfg, cs, act, s.w, s.agents[0], s'.w, s'.agents[0]);
    CleanStepLocalOnTheWay(cfg, cs, act, s.w, s.agents[0], s'.w, s'.agents[0]);
    CleanStepCanonicalPhase(cfg, cs, act, s.w, s.agents[0], s'.w, s'.agents[0]);
    LocalOnTheWayTransitive(cfg, cs, w0, s.w, s'.w);
  }

  /** No reclaimable file is left. */
  ghost predicate Swept(cfg: Config, cs: set<PhotoClass>, w: World) {
    forall f | f in w.local :: !Reclaimed(cfg, cs, w, f)
  }

  /** The local files after a completed run with local deletion, as a function of the state it started in. */
  lemma SweptIsClosedForm(cfg: Config, cs: set<PhotoClass>, w0: World, w: World)
    requires OnTheWay(cfg, cs, w0, w) && LocalOnTheWay(cfg, cs, w0, w) && Swept(cfg, cs, w)
    ensures forall f :: f in w.local <==> f in w0.local && !Reclaimed(cfg, cs, w0, f)
    ensures forall f | f in w.local :: w.local[f] == w0.local[f]
  {
  }

  lemma LocalOnTheWayTransitive(cfg: Config, cs: set<PhotoClass>, w0: World, w1: World, w2: World)
    requires OnTheWay(cfg, cs, w0, w1) && OnTheWay(cfg, cs, w1, w2)
    requires LocalOnTheWay(cfg, cs, w0, w1) && LocalOnTheWay(cfg, cs, w1, w2)
    ensures LocalOnTheWay(cfg, cs, w0, w2)
  {
  }

  /** Completed runs with local deletion from one canonical state agree on the local files too. */
  lemma SweptRunsAgree(cfg: Config, cs: set<PhotoClass>, w0: World, w1: World, w2: World)
    requires OnTheWay(cfg, cs, w0, w1) && LocalOnTheWay(cfg, cs, w0, w1) && Swept(cfg, cs, w1)
    requires OnTheWay(cfg, cs, w0, w2) && LocalOnTheWay(cfg, cs, w0, w2) && Swept(cfg, cs, w2)
    ensures w1.local == w2.local
  {
    SweptIsClosedForm(cfg, cs, w0, w1);
    SweptIsClosedForm(cfg, cs, w0, w2);
    assert forall f :: f in w1.local <==> f in w2.local;
  }

  /** Deferred deletion is inline deletion: stop a fault-free run from a canonical state anywhere (for one,
      at the end of a run without local deletion), then run to the end with local deletion; rows, objects
      and local files are those of a single run with local deletion. */
  lemma DeferredDeleteAgrees(cfg: Config, cs: set<PhotoClass>, run: seq<System>, n: nat, deferred: World, inline: World)
    requires IsCleanRun(cfg, cs, run) && run[0].agents[0].phase.Idle? && n < |run| && Canonical(cfg, run[0].w)
    requires Completes(cfg, cs, run[n].w, deferred) && LocalOnTheWay(cfg, cs, run[n].w, deferred)
    requires Swept(cfg, cs, deferred)
    requires Completes(cfg, cs, run[0].w, inline) && LocalOnTheWay(cfg, cs, run[0].w, inline) && Swept(cfg, cs, inline)
    ensures deferred.album == inline.album && deferred.chore == inline.chore
    ensures deferred.target.Keys == inline.target.Keys
    ensures deferred.local == inline.local
    ensures CollisionFree(cfg, run[0].w) ==> deferred.target == inline.target
  {
    var w0, w := run[0].w, run[n].w;
    assert OnTheWay(cfg, cs, w0, w) by { CleanRunOnTheWay(cfg, cs, run, 0, n); }
    assert LocalOnTheWay(cfg, cs, w0, w) by { CleanRunLocalOnTheWay(cfg, cs, run, n); }
    DeferredAgrees(cfg, cs, w0, w, deferred, inline);
  }

  lemma DeferredAgrees(cfg: Config, cs: set<PhotoClass>, w0: World, w: World, deferred: World, inline: World)
    requires OnTheWay(cfg, cs, w0, w) && LocalOnTheWay(cfg, cs, w0, w)
    requires Completes(cfg, cs, w, deferred) && LocalOnTheWay(cfg, cs, w, deferred) && Swept(cfg, cs, deferred)
    requires Completes(cfg, cs, w0, inline) && LocalOnTheWay(cfg, cs, w0, inline) && Swept(cfg, cs, inline)
    ensures deferred.album == inline.album && deferred.chore == inline.chore
    ensures deferred.target.Keys == inline.target.Keys
    ensures deferred.local == inline.local
    ensures CollisionFree(cfg, w0) ==> deferred.target == inline.target
  {
    assert OnTheWay(cfg, cs, w0, deferred) by { OnTheWayTransitive(cfg, cs, w0, w, deferred); }
    assert LocalOnTheWay(cfg, cs, w0, deferred) by { LocalOnTheWayTransitive(cfg, cs, w0, w, deferred); }
    assert deferred.local == inline.local by { SweptRunsAgree(cfg, cs, w0, deferred, inline); }
    CompletedRunsAgree(cfg, cs, w0, deferred, inline);
  }
}
