/** Objects no row holds: the verifier's reaper candidates, and which of them a fault-free migration adds. */
module MigrationOrphans {
  import opened Prelude
  import opened StorageKeys
  import opened Photos
  import opened PhotoPorts
  import opened MigrationProtocol
  import opened MigrationOutcome

  /** Some row of either table has its bytes at this key. */
  predicate Referenced(w: World, key: Ref) {
    Holders(w.Rows(Album), S3, key) != {} || Holders(w.Rows(ChoreProof), S3, key) != {}
  }

  predicate Orphan(w: World, k: Ref) {
    k in w.target && !Referenced(w, k)
  }

  /** A row holds k after a completed run iff it already did, or it moves and k is its key. */
  lemma RowHeldAfterwards(cfg: Config, cs: set<PhotoClass>, w0: World, w: World, c: PhotoClass, id: nat, k: Ref)
    requires Completes(cfg, cs, w0, w)
    ensures id in Holders(w.Rows(c), S3, k) <==>
              id in Holders(w0.Rows(c), S3, k) ||
                (c in cs && UploadedBy(cfg, w0, c, id, k) && !Outranked(cfg, w0, c, id))
  {
    CompletedIsClosedForm(cfg, cs, w0, w);
    hide Completes, Outranked;
    if id in w0.Rows(c) {
      assert w.Rows(c)[id] == FutureRow(cfg, cs, w0, c, id);
    }
  }

  lemma HeldAfterwards(cfg: Config, cs: set<PhotoClass>, w0: World, w: World, k: Ref)
    requires Completes(cfg, cs, w0, w)
    ensures Referenced(w, k) <==>
              Referenced(w0, k) ||
              exists c, id :: c in cs && UploadedBy(cfg, w0, c, id, k) && !Outranked(cfg, w0, c, id)
  {
    forall c, id
      ensures id in Holders(w.Rows(c), S3, k) <==>
                id in Holders(w0.Rows(c), S3, k) ||
                  (c in cs && UploadedBy(cfg, w0, c, id, k) && !Outranked(cfg, w0, c, id))
    {
      RowHeldAfterwards(cfg, cs, w0, w, c, id, k);
    }
    if c, id :| c in cs && UploadedBy(cfg, w0, c, id, k) && !Outranked(cfg, w0, c, id) {
      assert id in Holders(w.Rows(c), S3, k);
    }
    hide Completes, UploadedBy, Outranked;
  }

  /** The reaper candidates a completed fault-free run adds, exactly: the keys it uploaded for rows that the
      unique index kept out, when no other row holds them. Every other object without a row was there before. */
  lemma OrphansAdded(cfg: Config, cs: set<PhotoClass>, w0: World, w: World, k: Ref)
    requires Completes(cfg, cs, w0, w)
    ensures Orphan(w, k) && !Orphan(w0, k) <==>
              && k !in w0.target && !Referenced(w0, k)
              && (exists c, id :: c in cs && UploadedBy(cfg, w0, c, id, k))
              && (forall c, id | c in cs && UploadedBy(cfg, w0, c, id, k) :: Outranked(cfg, w0, c, id))
  {
    CompletedIsClosedForm(cfg, cs, w0, w);
    HeldAfterwards(cfg, cs, w0, w, k);
  }

  /** None is added when every album row has its content hash recorded. */
  lemma HashedTablesGainNoOrphan(cfg: Config, cs: set<PhotoClass>, w0: World, w: World, k: Ref)
    requires Completes(cfg, cs, w0, w)
    requires forall id | id in w0.album :: w0.album[id].hash.Some?
    ensures Orphan(w, k) ==> Orphan(w0, k)
  {
    OrphansAdded(cfg, cs, w0, w, k);
    if c, id :| c in cs && UploadedBy(cfg, w0, c, id, k) {
      assert !Outranked(cfg, w0, c, id);
    }
  }

  lemma ExtensionsTellKeysApart(cfg: Config, row: Row, data: Bytes)
    ensures KeyOf(cfg, Album, row.(contentType := "image/jpeg"), data)
            != KeyOf(cfg, Album, row.(contentType := "image/png"), data)
  {
    var h := cfg.digest(data);
    if BuildStorageKey(row.household, Album, h, "jpg") == BuildStorageKey(row.household, Album, h, "png") {
      BuiltKeysAreInjective(row.household, Album, h, "jpg", row.household, Album, h, "png");
    }
  }

  /** One is added for two rows without a recorded hash that hold the same bytes under different accepted content
      types. */
  lemma DuplicateLeavesOrphan(cfg: Config, household: Uuid, data: Bytes, w: World)
    requires |data| <= cfg.maxUploadBytes
    requires Completes(cfg, {Album}, UnhashedPair(household, data), w)
    ensures exists k :: Orphan(w, k)
  {
    var k := SecondIsOutranked(cfg, household, data);
    hide Completes, Referenced, Outranked, UploadedBy;
    OrphansAdded(cfg, {Album}, UnhashedPair(household, data), w, k);
  }

  function UnhashedPair(household: Uuid, data: Bytes): World {
    var row := Row(household, "pair", Local, "image/jpeg", None);
    World(map["pair" := data], map[], map[1 := row, 2 := row.(contentType := "image/png")], map[])
  }

  lemma SecondIsOutranked(cfg: Config, household: Uuid, data: Bytes) returns (k: Ref)
    requires |data| <= cfg.maxUploadBytes
    ensures var w0 := UnhashedPair(household, data);
            && k !in w0.target && !Referenced(w0, k)
            && UploadedBy(cfg, w0, Album, 2, k)
            && forall id | UploadedBy(cfg, w0, Album, id, k) :: Outranked(cfg, w0, Album, id)
  {
    var w0 := UnhashedPair(household, data);
    k := KeyOf(cfg, Album, w0.album[2], data);
    ExtensionsTellKeysApart(cfg, w0.album[1], data);
    assert Claims(cfg, w0, 1, 2, cfg.digest(data));
  }

  // ---- In the middle of a run ----

  ghost function KeyInHand(cfg: Config, p: Phase): Option<Ref> {
    if (p.Present? || p.Verified?) && p.c != Unspecified && ExtensionForContentType(p.row.contentType).Some?
    then Some(KeyOf(cfg, p.c, p.row, p.data)) else None
  }

  /** A fault-free step of an undisturbed process: it gives a row up after its upload only when the object at
      its key was bad all along. */
  ghost predicate TidyTake(cfg: Config, cs: set<PhotoClass>, act: Action, w: World, a: Agent, w': World, a': Agent) {
    && CleanTake(cfg, cs, act, w, a, w', a')
    && match act
       case GiveUp =>
         && !a.phase.Verified?
         && (KeyInHand(cfg, a.phase).Some? ==>
               !Intact(cfg, w.target, KeyInHand(cfg, a.phase).value, cfg.digest(a.phase.data)))
       case _ => true
  }

  ghost predicate TidyStep(cfg: Config, cs: set<PhotoClass>, s: System, s': System) {
    && |s.agents| == 1 && |s'.agents| == 1
    && exists act :: TidyTake(cfg, cs, act, s.w, s.agents[0], s'.w, s'.agents[0])
  }

  ghost predicate TidyStepAt(cfg: Config, cs: set<PhotoClass>, run: seq<System>, n: nat)
    requires n + 1 < |run|
  {
    TidyStep(cfg, cs, run[n], run[n + 1])
  }

  ghost predicate IsTidyRun(cfg: Config, cs: set<PhotoClass>, run: seq<System>) {
    && |run| > 0 && |run[0].agents| == 1
    && forall n | 0 <= n < |run| - 1 :: TidyStepAt(cfg, cs, run, n)
  }

  lemma TidyRunIsClean(cfg: Config, cs: set<PhotoClass>, run: seq<System>)
    requires IsTidyRun(cfg, cs, run)
    ensures IsCleanRun(cfg, cs, run)
  {
    hide TidyStep, CleanStep;
    forall n | 0 <= n < |run| - 1
      ensures CleanStepAt(cfg, cs, run, n)
    {
      assert TidyStepAt(cfg, cs, run, n);
      TidyStepIsClean(cfg, cs, run[n], run[n + 1]);
    }
  }

  lemma TidyStepIsClean(cfg: Config, cs: set<PhotoClass>, s: System, s': System)
    requires TidyStep(cfg, cs, s, s')
    ensures CleanStep(cfg, cs, s, s')
  {
    hide CleanTake;
    var act :| TidyTake(cfg, cs, act, s.w, s.agents[0], s'.w, s'.agents[0]);
  }

  /** k is left behind by a row the unique index keeps out. */
  ghost predicate LeftByOutranked(cfg: Config, cs: set<PhotoClass>, w0: World, k: Ref) {
    exists c, id :: c in cs && UploadedBy(cfg, w0, c, id, k) && Outranked(cfg, w0, c, id)
  }

  /** Every object added since w0 is held by a row, in hand, or left by a row the unique index keeps out. */
  ghost predicate Tidy(cfg: Config, cs: set<PhotoClass>, w0: World, w: World, p: Phase) {
    forall k | k in w.target && k !in w0.target ::
      Referenced(w, k) || KeyInHand(cfg, p) == Some(k) || LeftByOutranked(cfg, cs, w0, k)
  }

  lemma TidyStepStaysTidy(cfg: Config, cs: set<PhotoClass>, w0: World, act: Action, w: World, a: Agent, w': World,
                          a': Agent, k: Ref)
    requires OnTheWay(cfg, cs, w0, w) && CleanPhase(cfg, cs, w, a.phase)
    requires Tidy(cfg, cs, w0, w, a.phase) && TidyTake(cfg, cs, act, w, a, w', a')
    requires k in w'.target && k !in w0.target
    ensures Referenced(w', k) || KeyInHand(cfg, a'.phase) == Some(k) || LeftByOutranked(cfg, cs, w0, k)
  {
    var p := a.phase;
    if k in w.target && KeyInHand(cfg, p) == Some(k) {
      InHandIsAccountedFor(cfg, cs, w0, act, w, a, w', a', k);
    } else if k in w.target && Referenced(w, k) {
      HeldStaysHeld(cfg, cs, act, w, a, w', a', k);
    }
  }

  lemma HeldStaysHeld(cfg: Config, cs: set<PhotoClass>, act: Action, w: World, a: Agent, w': World, a': Agent, k: Ref)
    requires CleanTake(cfg, cs, act, w, a, w', a') && Referenced(w, k)
    ensures Referenced(w', k)
  {
    forall c, id | id in Holders(w.Rows(c), S3, k)
      ensures id in Holders(w'.Rows(c), S3, k)
    {
    }
  }

  /** An object this migration added is intact for any row about to be verified against it. */
  lemma AddedObjectIsIntact(cfg: Config, cs: set<PhotoClass>, w0: World, w: World, p: Phase, k: Ref)
    requires OnTheWay(cfg, cs, w0, w) && k in w.target && k !in w0.target && KeyInHand(cfg, p) == Some(k)
    ensures Intact(cfg, w.target, k, cfg.digest(p.data))
  {
    var c, id :| c in cs && UploadedBy(cfg, w0, c, id, k) && w.target[k] == w0.local[w0.Rows(c)[id].ref];
    hide OnTheWay;
    EqualKeysEqualDigests(cfg, c, w0.Rows(c)[id], w.target[k], p.c, p.row, p.data);
  }

  lemma RefusedIsOutranked(cfg: Config, cs: set<PhotoClass>, w0: World, w: World, p: Phase, k: Ref)
    requires OnTheWay(cfg, cs, w0, w) && CleanPhase(cfg, cs, w, p) && p.Verified?
    requires KeyInHand(cfg, p) == Some(k) && RefusedNow(cfg, w, p)
    ensures LeftByOutranked(cfg, cs, w0, k)
  {
    HashTakenIsOutranked(cfg, w, p.c, p.id);
    assert UploadedBy(cfg, w, p.c, p.id, k);
    UploadsTraceBack(cfg, cs, w0, w, p.c, p.id, k);
    assert w.Rows(p.c)[p.id] == w0.Rows(p.c)[p.id];
    hide OnTheWay, CleanPhase;
    SameProspects(cfg, cs, w0, w, p.c, p.id);
  }

  lemma InHandIsAccountedFor(cfg: Config, cs: set<PhotoClass>, w0: World, act: Action, w: World, a: Agent, w': World,
                             a': Agent, k: Ref)
    requires OnTheWay(cfg, cs, w0, w) && CleanPhase(cfg, cs, w, a.phase) && TidyTake(cfg, cs, act, w, a, w', a')
    requires k in w.target && k !in w0.target && KeyInHand(cfg, a.phase) == Some(k)
    ensures Referenced(w', k) || KeyInHand(cfg, a'.phase) == Some(k) || LeftByOutranked(cfg, cs, w0, k)
  {
    AddedObjectIsIntact(cfg, cs, w0, w, a.phase, k);
    if act.Flip? {
      if act.applied {
        FlippedIsHeld(cfg, cs, act, w, a, w', a', k);
      } else {
        RefusedIsOutranked(cfg, cs, w0, w, a.phase, k);
      }
    }
    hide OnTheWay, CleanPhase, LeftByOutranked, Referenced, Outranked, Moves, Intact, Acceptable, KeyOf;
  }

  lemma FlippedIsHeld(cfg: Config, cs: set<PhotoClass>, act: Action, w: World, a: Agent, w': World, a': Agent, k: Ref)
    requires CleanTake(cfg, cs, act, w, a, w', a') && act.Flip? && act.applied && KeyInHand(cfg, a.phase) == Some(k)
    ensures Referenced(w', k)
  {
    assert a.phase.id in Holders(w'.Rows(a.phase.c), S3, k);
  }

  lemma {:induction false} TidyRunStaysTidy(cfg: Config, cs: set<PhotoClass>, run: seq<System>, n: nat)
    requires IsTidyRun(cfg, cs, run) && run[0].agents[0].phase.Idle? && n < |run|
    ensures |run[n].agents| == 1 && Tidy(cfg, cs, run[0].w, run[n].w, run[n].agents[0].phase)
  {
    assert Tidy(cfg, cs, run[0].w, run[0].w, run[0].agents[0].phase);
    hide Tidy, OnTheWay, CleanPhase, TidyStep;
    if n > 0 {
      TidyRunStaysTidy(cfg, cs, run, n - 1);
      TidyRunIsClean(cfg, cs, run);
      CleanRunOnTheWay(cfg, cs, run, 0, n - 1);
      assert TidyStepAt(cfg, cs, run, n - 1);
      OneMoreTidyStep(cfg, cs, run[0].w, run[n - 1], run[n]);
    }
  }

  lemma OneMoreTidyStep(cfg: Config, cs: set<PhotoClass>, w0: World, s: System, s': System)
    requires TidyStep(cfg, cs, s, s') && OnTheWay(cfg, cs, w0, s.w)
    requires CleanPhase(cfg, cs, s.w, s.agents[0].phase) && Tidy(cfg, cs, w0, s.w, s.agents[0].phase)
    ensures Tidy(cfg, cs, w0, s'.w, s'.agents[0].phase)
  {
    hide TidyTake, OnTheWay, CleanPhase, LeftByOutranked;
    var act :| TidyTake(cfg, cs, act, s.w, s.agents[0], s'.w, s'.agents[0]);
    forall k | k in s'.w.target && k !in w0.target
      ensures Referenced(s'.w, k) || KeyInHand(cfg, s'.agents[0].phase) == Some(k) || LeftByOutranked(cfg, cs, w0, k)
    {
      TidyStepStaysTidy(cfg, cs, w0, act, s.w, s.agents[0], s'.w, s'.agents[0], k);
    }
  }

  /** Stopped after any step, an undisturbed fault-free run has added at most one object without a row, besides
      those that rows kept out by the unique index leave for good. */
  lemma AtMostOneOrphanInFlight(cfg: Config, cs: set<PhotoClass>, run: seq<System>, n: nat, k1: Ref, k2: Ref)
    requires IsTidyRun(cfg, cs, run) && run[0].agents[0].phase.Idle? && n < |run|
    requires Orphan(run[n].w, k1) && k1 !in run[0].w.target && !LeftByOutranked(cfg, cs, run[0].w, k1)
    requires Orphan(run[n].w, k2) && k2 !in run[0].w.target && !LeftByOutranked(cfg, cs, run[0].w, k2)
    ensures k1 == k2
  {
    TidyRunStaysTidy(cfg, cs, run, n);
  }
}
