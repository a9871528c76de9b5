/** Album rows that carry no content hash: what the unique index on (household, content hash) does to them. */
module MigrationDuplicates {
  import opened Prelude
  import opened StorageKeys
  import opened Photos
  import opened MigrationProtocol
  import opened MigrationSafety
  import opened MigrationOutcome
  import opened MigrationOrphans

  // ---- In every run ----

  /** Two rows of a household share a recorded hash only if both had it from the start. */
  ghost predicate HashesApart(w0: Table, w: Table) {
    forall i, j | i in w && j in w && i != j && SameHash(w[i], w[j]) ::
      i in w0 && j in w0 && w0[i].hash == w[i].hash && w0[j].hash == w[j].hash
  }

  predicate SameHash(a: Row, b: Row) {
    a.household == b.household && a.hash.Some? && a.hash == b.hash
  }

  lemma FlipKeepsHashesApart(cfg: Config, w0: Table, w: World, id: nat, key: Ref, h: Digest)
    requires HashesApart(w0, w.album) && id in w.album && !HashTaken(w, Album, id, w.album[id], h)
    ensures HashesApart(w0, w.album[id := Flipped(Album, w.album[id], key, h)])
  {
    var now := w.album[id := Flipped(Album, w.album[id], key, h)];
    forall i, j | i in now && j in now && i != j && SameHash(now[i], now[j])
      ensures i in w0 && j in w0 && w0[i].hash == now[i].hash && w0[j].hash == now[j].hash
    {
      assert SameHash(w.album[i], w.album[j]);
    }
  }

  lemma StepKeepsHashesApart(cfg: Config, w0: Table, s: System, s': System)
    requires HashesApart(w0, s.w.album) && Step(cfg, s, s')
    ensures HashesApart(w0, s'.w.album)
  {
    var i: nat, act :| StepOf(cfg, i, act, s, s');
    var p := s.agents[i].phase;
    hide HashesApart;
    if act.Flip? && act.applied && p.c.Album? {
      FlipKeepsHashesApart(cfg, w0, s.w, p.id, KeyOf(cfg, p.c, p.row, p.data), cfg.digest(p.data));
    }
  }

  lemma {:induction false} RunKeepsHashesApart(cfg: Config, run: seq<System>, n: nat)
    requires IsRun(cfg, run) && n < |run|
    ensures HashesApart(run[0].w.album, run[n].w.album)
  {
    if n > 0 {
      RunKeepsHashesApart(cfg, run, n - 1);
      assert StepAt(cfg, run, n - 1);
      hide HashesApart, Step;
      StepKeepsHashesApart(cfg, run[0].w.album, run[n - 1], run[n]);
    }
  }

  /** In every state of every run, whatever fails and however many processes take part: of the rows of one
      household that carry no hash and whose files have one digest, at most one has moved. */
  lemma AtMostOneDuplicateMoves(cfg: Config, run: seq<System>, n: nat, i: nat, j: nat)
    requires IsRun(cfg, run) && Fresh(run[0]) && n < |run|
    requires i in run[0].w.album && j in run[0].w.album && i != j
    requires var a, b := run[0].w.album[i], run[0].w.album[j];
             && a.household == b.household && a.hash.None? && b.hash.None? && a.backend.Local? && b.backend.Local?
             && a.ref in run[0].w.local && b.ref in run[0].w.local
             && cfg.digest(run[0].w.local[a.ref]) == cfg.digest(run[0].w.local[b.ref])
    ensures i in run[n].w.album && j in run[n].w.album
    ensures !(run[n].w.album[i].backend.S3? && run[n].w.album[j].backend.S3?)
  {
    RunKeepsInv(cfg, run, n);
    RunKeepsHashesApart(cfg, run, n);
    var w0, w := run[0].w, run[n].w;
    assert RowsKept(cfg, w0, w, Album);
    assert RowState(cfg, w0, w, Album, w0.Rows(Album)[i], w.Rows(Album)[i]);
    assert RowState(cfg, w0, w, Album, w0.Rows(Album)[j], w.Rows(Album)[j]);
    hide IsRun, Inv, RowsKept;
    var same := SameHash(w.album[i], w.album[j]);
  }

  /** A row whose content type is not an accepted image type never changes, in any run. The rows from before
      content hashes were recorded have the empty type, so they never move. */
  lemma UntypedRowStays(cfg: Config, run: seq<System>, n: nat, c: PhotoClass, id: nat)
    requires IsRun(cfg, run) && Fresh(run[0]) && n < |run|
    requires id in run[0].w.Rows(c) && ExtensionForContentType(run[0].w.Rows(c)[id].contentType).None?
    ensures id in run[n].w.Rows(c) && run[n].w.Rows(c)[id] == run[0].w.Rows(c)[id]
  {
    RunKeepsInv(cfg, run, n);
    assert RowsKept(cfg, run[0].w, run[n].w, c);
    assert RowState(cfg, run[0].w, run[n].w, c, run[0].w.Rows(c)[id], run[n].w.Rows(c)[id]);
  }

  // ---- In completed fault-free runs ----

  /** Every album row without a hash also lacks a known content type: the rows that predate hashes. */
  ghost predicate HashlessAreUntyped(w: World) {
    forall id | id in w.album && w.album[id].hash.None? :: ExtensionForContentType(w.album[id].contentType).None?
  }

  /** Then the unique index keeps no row out: a completed run moves exactly the rows that pass every check. */
  lemma UntypedTablesMoveAllGood(cfg: Config, cs: set<PhotoClass>, w0: World, w: World, c: PhotoClass, id: nat)
    requires Completes(cfg, cs, w0, w) && HashlessAreUntyped(w0) && c in cs
    requires id in w0.Rows(c) && w0.Rows(c)[id].backend.Local?
    ensures id in w.Rows(c) && (w.Rows(c)[id].backend.S3? <==> Good(cfg, w0, c, w0.Rows(c)[id]))
  {
    CompletedIsClosedForm(cfg, cs, w0, w);
    hide Completes, KeyOf, FutureRow, FutureKey;
  }

  /** And it adds no object without a row. */
  lemma UntypedTablesGainNoOrphan(cfg: Config, cs: set<PhotoClass>, w0: World, w: World, k: Ref)
    requires Completes(cfg, cs, w0, w) && HashlessAreUntyped(w0)
    ensures Orphan(w, k) ==> Orphan(w0, k)
  {
    OrphansAdded(cfg, cs, w0, w, k);
    hide Completes, Orphan, Referenced;
    if c, id :| c in cs && UploadedBy(cfg, w0, c, id, k) {
      assert !Outranked(cfg, w0, c, id);
    }
  }

  /** A row without a hash that passes every check, and whose file has the digest h. */
  predicate IsDuplicate(cfg: Config, w: World, id: nat, h: Digest) {
    && id in w.album && w.album[id].hash.None? && Good(cfg, w, Album, w.album[id])
    && cfg.digest(w.local[w.album[id].ref]) == h
  }

  /** Of the typed rows of a household that carry no hash and whose files have one digest, a completed run moves
      the first that passes every check, and no other, unless another row already has the hash. */
  lemma FirstDuplicateMoves(cfg: Config, cs: set<PhotoClass>, w0: World, w: World, id: nat)
    requires Completes(cfg, cs, w0, w) && Album in cs
    requires id in w0.album && w0.album[id].hash.None? && Good(cfg, w0, Album, w0.album[id])
    ensures id in w.album
    ensures w.album[id].backend.S3? <==>
              forall other | other in w0.album && other != id && w0.album[other].household == w0.album[id].household ::
                var h := cfg.digest(w0.local[w0.album[id].ref]);
                && w0.album[other].hash != Some(h)
                && (IsDuplicate(cfg, w0, other, h) ==> id < other)
  {
    CompletedIsClosedForm(cfg, cs, w0, w);
    assert w.Rows(Album)[id] == w.album[id] && w0.Rows(Album)[id] == w0.album[id];
    hide Completes, KeyOf, FutureRow, FutureKey, Good;
    assert w.album[id].backend.S3? <==> !Outranked(cfg, w0, Album, id);
  }

  function TwoDuplicates(household: Uuid, data: Bytes): World {
    var row := Row(household, "duplicate", Local, "image/jpeg", None);
    World(map["duplicate" := data], map[], map[1 := row, 2 := row], map[])
  }

  /** Two typed album rows of one household with the same file and no recorded hash: both pass every check, and
      every completed run moves the first and leaves the second. */
  lemma SecondDuplicateStays(cfg: Config, household: Uuid, data: Bytes, w: World)
    requires |data| <= cfg.maxUploadBytes && Completes(cfg, {Album}, TwoDuplicates(household, data), w)
    ensures var w0 := TwoDuplicates(household, data);
            Good(cfg, w0, Album, w0.album[1]) && Good(cfg, w0, Album, w0.album[2])
    ensures 1 in w.album && w.album[1].backend.S3? && 2 in w.album && w.album[2].backend.Local?
  {
    var w0 := TwoDuplicates(household, data);
    assert Good(cfg, w0, Album, w0.album[1]);
    hide Completes;
    FirstDuplicateMoves(cfg, {Album}, w0, w, 1);
    FirstDuplicateMoves(cfg, {Album}, w0, w, 2);
  }

  // ---- With a failed call ----

  /** The states of a run in which every call on row 1 failed, and row 2 was migrated instead. */
  function InsteadAt(cfg: Config, household: Uuid, data: Bytes, n: nat): System
    requires |data| <= cfg.maxUploadBytes
  {
    var w := TwoDuplicates(household, data);
    var row, h := w.album[2], cfg.digest(data);
    var key := KeyOf(cfg, Album, row, data);
    var seen, uploaded := {Listed(Album, 2, row)}, w.(target := map[key := data]);
    if n == 0 then System(w, [Agent({}, Idle)])
    else if n == 1 then System(w, [Agent(seen, Idle)])
    else if n == 2 then System(w, [Agent(seen, Opened(Album, 2, row, data))])
    else if n == 3 then System(w, [Agent(seen, Absent(Album, 2, row, data))])
    else if n == 4 then System(uploaded, [Agent(seen, Present(Album, 2, row, data))])
    else if n == 5 then System(uploaded, [Agent(seen, Verified(Album, 2, row, data))])
    else System(uploaded.SetRow(Album, 2, Flipped(Album, row, key, h)),
      [Agent(seen, Release(Album, 2, row.ref, key, h))])
  }

  lemma InsteadUploads(cfg: Config, household: Uuid, data: Bytes, n: nat)
    requires |data| <= cfg.maxUploadBytes && n < 4
    ensures Step(cfg, InsteadAt(cfg, household, data, n), InsteadAt(cfg, household, data, n + 1))
  {
    var row := TwoDuplicates(household, data).album[2];
    var act := if n == 0 then List({Listed(Album, 2, row)}) else if n == 1 then Open(Listed(Album, 2, row))
               else if n == 2 then CheckTarget else Put(Some(data), true);
    assert StepOf(cfg, 0, act, InsteadAt(cfg, household, data, n), InsteadAt(cfg, household, data, n + 1));
  }

  lemma InsteadFlips(cfg: Config, household: Uuid, data: Bytes, n: nat)
    requires |data| <= cfg.maxUploadBytes && 4 <= n < 6
    ensures Step(cfg, InsteadAt(cfg, household, data, n), InsteadAt(cfg, household, data, n + 1))
  {
    var act := if n == 4 then ReadBack else Flip(true, true);
    assert StepOf(cfg, 0, act, InsteadAt(cfg, household, data, n), InsteadAt(cfg, household, data, n + 1));
  }

  /** Which of two duplicates moves depends on the failures of a run: here it is the second. */
  lemma SecondMayMoveInstead(cfg: Config, household: Uuid, data: Bytes) returns (run: seq<System>)
    requires |data| <= cfg.maxUploadBytes
    ensures IsRun(cfg, run) && Fresh(run[0]) && run[0].w == TwoDuplicates(household, data)
    ensures var w := run[|run| - 1].w;
            && 1 in w.album && 2 in w.album && w.album[2].backend.S3? && w.album[1].backend.Local?
  {
    run := seq(7, n requires 0 <= n < 7 => InsteadAt(cfg, household, data, n));
    assert Fresh(run[0]);
    hide Step;
    forall n | 0 <= n < |run| - 1
      ensures StepAt(cfg, run, n)
    {
      if n < 4 { InsteadUploads(cfg, household, data, n); } else { InsteadFlips(cfg, household, data, n); }
    }
  }
}
