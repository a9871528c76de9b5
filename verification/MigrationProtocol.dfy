/** The migration as a state machine: any number of migrator processes, each taking one port call at a
    time, with any call allowed to fail and any process allowed to stop between two calls. */
module MigrationProtocol {
  import opened Prelude
  import opened StorageKeys
  import opened Photos

  /** A row as some listing returned it; it may be stale by the time it is processed. */
  datatype Listed = Listed(c: PhotoClass, id: nat, row: Row)

  /** What one process has established about the row in its hands. */
  datatype Phase =
    | Idle
    | Opened(c: PhotoClass, id: nat, row: Row, data: Bytes)       // local bytes are in memory
    | Absent(c: PhotoClass, id: nat, row: Row, data: Bytes)       // the existence check found no object
    | Present(c: PhotoClass, id: nat, row: Row, data: Bytes)      // there is an object, not yet checked
    | Verified(c: PhotoClass, id: nat, row: Row, data: Bytes)     // the object was read back and matched
    | SweepOpened(c: PhotoClass, id: nat, row: Row, data: Bytes)  // a leftover file of a migrated row
    | Release(c: PhotoClass, id: nat, ref: Ref, key: Ref, h: Digest)      // the local file may go if unreferenced
    | AlbumFree(c: PhotoClass, id: nat, ref: Ref, key: Ref, h: Digest)    // no album row needs it
    | Unreferenced(c: PhotoClass, id: nat, ref: Ref, key: Ref, h: Digest) // no row of either table needs it

  datatype Agent = Agent(seen: set<Listed>, phase: Phase)

  datatype System = System(w: World, agents: seq<Agent>)

  datatype Action =
    | List(rows: set<Listed>)
    | Open(from: Listed)
    | CheckTarget
    | Put(stored: Option<Bytes>, ok: bool)
    | ReadBack
    | Flip(applied: bool, ok: bool)
    | CheckAlbum
    | CheckChore
    | DeleteLocal
    | SweepOpen(from: Listed)
    | SweepReadBack
    | GiveUp

  /** One port call of one process. A failed call, a refused row and a crash are all GiveUp, except that
      a failed upload may leave bytes behind and a failed update may still have been applied.
      A process running alone (`solo`) may even have an upload silently store other bytes; when several
      run, uploads are atomic and faithful. */
  ghost predicate Take(cfg: Config, solo: bool, act: Action, w: World, a: Agent, w': World, a': Agent) {
    && (!act.List? ==> a'.seen == a.seen)
    && (!act.Put? && !act.Flip? && !act.DeleteLocal? ==> w' == w)
    && var p := a.phase;
    match act
    case List(rows) =>
      && a'.phase == p && a'.seen == a.seen + rows
      && forall l | l in rows :: l.id in w.Rows(l.c) && w.Rows(l.c)[l.id] == l.row
    case Open(l) =>
      && p.Idle? && l in a.seen && l.row.backend.Local? && l.row.ref in w.local
      && a'.phase == Opened(l.c, l.id, l.row, w.local[l.row.ref])
    case CheckTarget =>
      && p.Opened? && p.c != Unspecified && Acceptable(cfg, p.row, p.data)
      && a'.phase == if KeyOf(cfg, p.c, p.row, p.data) in w.target then Present(p.c, p.id, p.row, p.data)
                     else Absent(p.c, p.id, p.row, p.data)
    case Put(stored, ok) =>
      && p.Absent? && p.c != Unspecified && Acceptable(cfg, p.row, p.data)
      && (ok ==> stored.Some?)
      && (!solo ==> stored == None || stored == Some(p.data))
      && w' == (if stored.None? then w else w.(target := w.target[KeyOf(cfg, p.c, p.row, p.data) := stored.value]))
      && a'.phase == if ok then Present(p.c, p.id, p.row, p.data) else Idle
    case ReadBack =>
      && p.Present? && p.c != Unspecified && Acceptable(cfg, p.row, p.data)
      && Intact(cfg, w.target, KeyOf(cfg, p.c, p.row, p.data), cfg.digest(p.data))
      && a'.phase == Verified(p.c, p.id, p.row, p.data)
    case Flip(applied, ok) =>
      && p.Verified? && p.c != Unspecified && Acceptable(cfg, p.row, p.data)
      && var key, h := KeyOf(cfg, p.c, p.row, p.data), cfg.digest(p.data);
      && (if applied then
            && p.id in w.Rows(p.c) && w.Rows(p.c)[p.id].backend.Local?
            && !HashTaken(w, p.c, p.id, w.Rows(p.c)[p.id], h)
            && w' == w.SetRow(p.c, p.id, Flipped(p.c, w.Rows(p.c)[p.id], key, h))
          else w' == w)
      && a'.phase == if applied && ok then Release(p.c, p.id, p.row.ref, key, h) else Idle
    case CheckAlbum =>
      && p.Release? && !References(w.album, p.ref)
      && a'.phase == AlbumFree(p.c, p.id, p.ref, p.key, p.h)
    case CheckChore =>
      && p.AlbumFree? && !References(w.chore, p.ref)
      && a'.phase == Unreferenced(p.c, p.id, p.ref, p.key, p.h)
    case DeleteLocal =>
      && p.Unreferenced? && w' == w.(local := w.local - {p.ref}) && a'.phase == Idle
    case SweepOpen(l) =>
      && p.Idle? && l in a.seen && l.row.backend.S3? && l.row.ref in w.local
      && a'.phase == SweepOpened(l.c, l.id, l.row, w.local[l.row.ref])
    case SweepReadBack =>
      && p.SweepOpened? && p.row.hash == Some(cfg.digest(p.data))
      && Intact(cfg, w.target, p.row.ref, cfg.digest(p.data))
      && a'.phase == Release(p.c, p.id, p.row.ref, p.row.ref, cfg.digest(p.data))
    case GiveUp =>
      a'.phase == Idle
  }

  ghost predicate StepOf(cfg: Config, i: nat, act: Action, s: System, s': System) {
    && |s'.agents| == |s.agents| && i < |s.agents|
    && s'.agents == s.agents[i := s'.agents[i]]
    && Take(cfg, |s.agents| == 1, act, s.w, s.agents[i], s'.w, s'.agents[i])
  }

  ghost predicate Step(cfg: Config, s: System, s': System) {
    exists i: nat, act :: StepOf(cfg, i, act, s, s')
  }

  /** Processes that have just started. */
  ghost predicate Fresh(s: System) {
    forall i | 0 <= i < |s.agents| :: s.agents[i] == Agent({}, Idle)
  }

  ghost predicate StepAt(cfg: Config, run: seq<System>, n: nat)
    requires n + 1 < |run|
  {
    Step(cfg, run[n], run[n + 1])
  }

  /** Every prefix of a run is a run, so a property of all states of all runs covers every stopping point. */
  ghost predicate IsRun(cfg: Config, run: seq<System>) {
    && |run| > 0
    && forall n | 0 <= n < |run| - 1 :: StepAt(cfg, run, n)
  }
}
