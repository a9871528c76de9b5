/** What a pass over one row, one page or one class does to the stores. */
module MigrationProgress {
  import opened Prelude
  import opened StorageKeys
  import opened Photos
  import opened PhotoPorts
  import opened MigrationProtocol
  import opened MigrationOutcome
  import opened MigrationReclaim

  // ---- One row ----

  /** What one row's pass may change: its own row, local files no row needs, and objects of its class. */
  ghost predicate OnlyRow(w: World, w': World, c: PhotoClass, id: nat) {
    && (forall d :: w'.Rows(d).Keys == w.Rows(d).Keys)
    && (forall d, other | other in w'.Rows(d) && (d != c || other != id) :: w'.Rows(d)[other] == w.Rows(d)[other])
    && (id in w'.Rows(c) ==> w'.Rows(c)[id] == w.Rows(c)[id] || w'.Rows(c)[id].backend.S3?)
    && (forall f | f in w'.local :: f in w.local && w'.local[f] == w.local[f])
    && (forall k | k in w'.target && k !in w.target :: ClassOfKey(k) == Some(c))
  }

  lemma FlipIsOnlyRow(w: World, w': World, c: PhotoClass, id: nat, row: Row)
    requires id in w.Rows(c) && row.backend.S3?
    requires w'.(local := w.local, target := w.target) == w ||
               w'.(local := w.local, target := w.target) == w.SetRow(c, id, row)
    requires forall f :: f in w'.local ==> f in w.local && w'.local[f] == w.local[f]
    requires forall k :: k in w'.target && k !in w.target ==> ClassOfKey(k) == Some(c)
    ensures OnlyRow(w, w', c, id)
  {
  }

  /** What a fault-free pass over row id achieves. */
  ghost predicate RowSettled(cfg: Config, w: World, w': World, c: PhotoClass, id: nat) {
    && id in w'.Rows(c) && (w'.Rows(c)[id].backend.S3? <==> Moves(cfg, w, c, id))
    && forall k :: UploadedBy(cfg, w, c, id, k) ==> k in w'.target
  }

  lemma UploadOnlyRow(w: World, mid: World, c: PhotoClass, id: nat)
    requires mid == w.(target := mid.target)
    requires forall k :: k in mid.target && k !in w.target ==> ClassOfKey(k) == Some(c)
    ensures OnlyRow(w, mid, c, id)
  {
  }

  /** A pass is an upload, which leaves rows and files alone, and then what the flip does. */
  lemma PassOnlyRow(w: World, mid: World, w': World, c: PhotoClass, id: nat)
    requires mid == w.(target := mid.target) && OnlyRow(mid, w', c, id) && w'.target == mid.target
    requires forall k :: k in mid.target && k !in w.target ==> ClassOfKey(k) == Some(c)
    ensures OnlyRow(w, w', c, id)
  {
  }

  lemma PassSettlesRow(cfg: Config, w: World, w': World, c: PhotoClass, id: nat)
    requires id in w.Rows(c) && id in w'.Rows(c) && Good(cfg, w, c, w.Rows(c)[id])
    requires KeyOf(cfg, c, w.Rows(c)[id], w.local[w.Rows(c)[id].ref]) in w'.target
    requires w'.Rows(c)[id].backend.S3? <==> Moves(cfg, w, c, id)
    ensures RowSettled(cfg, w, w', c, id)
  {
  }

  /** A row that fails its checks stays local, and uploads nothing. */
  lemma FailureSettlesRow(cfg: Config, w: World, w': World, c: PhotoClass, id: nat)
    requires id in w.Rows(c) && !Good(cfg, w, c, w.Rows(c)[id])
    requires id in w'.Rows(c) && w'.Rows(c)[id] == w.Rows(c)[id] && w.Rows(c)[id].backend.Local?
    ensures RowSettled(cfg, w, w', c, id)
  {
  }

  // ---- One class, up to a cursor ----

  /** Since w0 only rows of class c up to the cursor changed, each by moving to the target. */
  ghost predicate ClassFrame(w0: World, w: World, c: PhotoClass, after: nat) {
    && (forall d :: w.Rows(d).Keys == w0.Rows(d).Keys)
    && (forall d, id | id in w.Rows(d) && (d != c || id > after) :: w.Rows(d)[id] == w0.Rows(d)[id])
    && (forall id | id in w.Rows(c) :: w.Rows(c)[id] == w0.Rows(c)[id] || w.Rows(c)[id].backend.S3?)
    && (forall f | f in w.local :: f in w0.local && w.local[f] == w0.local[f])
    && (forall k | k in w.target && k !in w0.target :: ClassOfKey(k) == Some(c))
  }

  lemma FrameNext(w0: World, w: World, w': World, c: PhotoClass, after: nat, id: nat)
    requires ClassFrame(w0, w, c, after) && after < id && OnlyRow(w, w', c, id)
    ensures ClassFrame(w0, w', c, id)
  {
  }

  lemma NextIsUnchanged(w0: World, w: World, c: PhotoClass, after: nat, id: nat)
    requires ClassFrame(w0, w, c, after) && IsNext(w0.Rows(c), Local, after, id)
    ensures after < id && id in w.Rows(c) && id in w0.Rows(c) && w.Rows(c)[id] == w0.Rows(c)[id]
    ensures w.Rows(c)[id].backend.Local?
  {
  }

  /** A page listed above the cursor is a page of the table the class pass started with. */
  lemma FrameSamePages(w0: World, w: World, c: PhotoClass, after: nat, limit: nat, rows: seq<(nat, Row)>)
    requires ClassFrame(w0, w, c, after) && IsPage(w.Rows(c), Local, after, limit, rows)
    ensures IsPage(w0.Rows(c), Local, after, limit, rows)
  {
    SamePages(w.Rows(c), w0.Rows(c), Local, after, limit, rows);
  }

  /** The ids visited so far: every row of the backend up to the cursor, once, ascending. */
  ghost predicate VisitedUpTo(table: Table, backend: Backend, after: nat, visited: seq<nat>) {
    && (forall i, j | 0 <= i < j < |visited| :: visited[i] < visited[j])
    && (forall id :: id in visited <==> id in Above(table, backend, 0) && id <= after)
    && |visited| + |Above(table, backend, after)| == |Above(table, backend, 0)|
  }

  lemma NoneBetween(table: Table, backend: Backend, after: nat, id: nat)
    requires IsNext(table, backend, after, id)
    ensures forall other | other in table && after < other < id :: table[other].backend != backend
  {
    forall other | other in table && after < other < id
      ensures table[other].backend != backend
    {
      assert other !in Above(table, backend, after);
    }
  }

  lemma AboveNext(table: Table, backend: Backend, after: nat, id: nat)
    requires IsNext(table, backend, after, id)
    ensures |Above(table, backend, id)| + 1 == |Above(table, backend, after)|
  {
    assert Above(table, backend, after) == Above(table, backend, id) + {id};
  }

  lemma VisitedNext(table: Table, backend: Backend, after: nat, visited: seq<nat>, id: nat)
    requires VisitedUpTo(table, backend, after, visited) && IsNext(table, backend, after, id)
    ensures VisitedUpTo(table, backend, id, visited + [id])
    ensures |Above(table, backend, id)| + 1 == |Above(table, backend, after)|
  {
    AboveNext(table, backend, after, id);
    assert forall i | 0 <= i < |visited| :: visited[i] in visited;
    forall x
      ensures x in visited + [id] <==> x in Above(table, backend, 0) && x <= id
    {
      if x in Above(table, backend, 0) && after < x <= id {
        assert x in Above(table, backend, after);
      }
    }
  }

  /** Once the next row is dealt with, everything up to it is settled. */
  lemma SettledNext(cfg: Config, cs: set<PhotoClass>, w0: World, w: World, w': World, c: PhotoClass, after: nat,
                    id: nat)
    requires c in cs && OnTheWay(cfg, cs, w, w') && SettledUpTo(cfg, w, c, after) && ClassFrame(w0, w, c, after)
    requires IsNext(w0.Rows(c), Local, after, id) && RowSettled(cfg, w, w', c, id)
    requires id in w.Rows(c) && (w'.Rows(c)[id] == w.Rows(c)[id] || w'.Rows(c)[id].backend.S3?)
    ensures SettledUpTo(cfg, w', c, id)
  {
    SettledBefore(cfg, w0, w, c, after, id);
    SettledStaysSettled(cfg, cs, w, w', c, id - 1);
    if w'.Rows(c)[id] == w.Rows(c)[id] {
      SameProspects(cfg, cs, w, w', c, id);
    }
    forall k | UploadedBy(cfg, w', c, id, k)
      ensures k in w'.target
    {
      UploadsTraceBack(cfg, cs, w, w', c, id, k);
    }
  }

  lemma SettledBefore(cfg: Config, w0: World, w: World, c: PhotoClass, after: nat, id: nat)
    requires SettledUpTo(cfg, w, c, after) && ClassFrame(w0, w, c, after) && IsNext(w0.Rows(c), Local, after, id)
    ensures id > 0 && SettledUpTo(cfg, w, c, id - 1) && NoneBefore(cfg, w, c, id)
  {
    forall other | other in w.Rows(c) && other < id
      ensures !Moves(cfg, w, c, other)
      ensures forall k :: UploadedBy(cfg, w, c, other, k) ==> k in w.target
    {
      if other > after {
        assert w.Rows(c)[other] == w0.Rows(c)[other];
        assert other !in Above(w0.Rows(c), Local, after);
      }
    }
  }

  ghost predicate NoLocalUpTo(table: Table, after: nat) {
    forall id | id in table && id <= after :: table[id].backend.S3?
  }

  lemma NoLocalNext(w0: World, w: World, w': World, c: PhotoClass, after: nat, id: nat)
    requires ClassFrame(w0, w, c, after) && IsNext(w0.Rows(c), Local, after, id) && OnlyRow(w, w', c, id)
    requires NoLocalUpTo(w.Rows(c), after) && id in w'.Rows(c) && w'.Rows(c)[id].backend.S3?
    ensures NoLocalUpTo(w'.Rows(c), id)
  {
    forall other | other in w'.Rows(c) && other <= id
      ensures w'.Rows(c)[other].backend.S3?
    {
      if after < other < id {
        assert w'.Rows(c)[other] == w0.Rows(c)[other];
        assert other !in Above(w0.Rows(c), Local, after);
      }
    }
  }

  /** Every row of the backend, once, ascending. */
  ghost predicate EveryId(table: Table, backend: Backend, visited: seq<nat>) {
    && (forall i, j | 0 <= i < j < |visited| :: visited[i] < visited[j])
    && (forall id :: id in visited <==> id in Above(table, backend, 0))
    && |visited| == |Above(table, backend, 0)|
  }

  ghost predicate NoLocal(table: Table) {
    forall id | id in table :: table[id].backend.S3?
  }

  ghost predicate ClassSettled(cfg: Config, w: World, c: PhotoClass) {
    forall id | id in w.Rows(c) :: !Moves(cfg, w, c, id) && forall k :: UploadedBy(cfg, w, c, id, k) ==> k in w.target
  }

  /** What the passes over class c may change altogether. */
  ghost predicate ClassChange(w0: World, w: World, c: PhotoClass) {
    && (forall d :: w.Rows(d).Keys == w0.Rows(d).Keys)
    && (forall d, id | id in w.Rows(d) && d != c :: w.Rows(d)[id] == w0.Rows(d)[id])
    && (forall id | id in w.Rows(c) :: w.Rows(c)[id] == w0.Rows(c)[id] || w.Rows(c)[id].backend.S3?)
    && (forall f | f in w.local :: f in w0.local && w.local[f] == w0.local[f])
    && (forall k | k in w.target && k !in w0.target :: ClassOfKey(k) == Some(c))
  }

  /** A pass over one class leaves the other classes without local rows if they had none. */
  lemma NoLocalStays(w: World, w': World, c: PhotoClass)
    requires ClassChange(w, w', c)
    ensures forall d :: NoLocal(w.Rows(d)) ==> NoLocal(w'.Rows(d))
  {
    forall d | NoLocal(w.Rows(d))
      ensures NoLocal(w'.Rows(d))
    {
      assert forall id | id in w'.Rows(d) :: w'.Rows(d)[id].backend.S3?;
    }
  }

  /** Removing local files afterwards changes nothing more. */
  lemma SweepIsClassChange(w0: World, mid: World, w: World, c: PhotoClass)
    requires ClassChange(w0, mid, c) && w == mid.(local := w.local)
    requires forall f | f in w.local :: f in mid.local && w.local[f] == mid.local[f]
    ensures ClassChange(w0, w, c)
  {
  }

  /** When no local row is left above the cursor, what holds up to the cursor holds of the whole class. */
  lemma LoopEnds(w0: World, w: World, c: PhotoClass, last: nat, visited: seq<nat>)
    requires ClassFrame(w0, w, c, last) && Above(w0.Rows(c), Local, last) == {}
    requires VisitedUpTo(w0.Rows(c), Local, last, visited)
    ensures ClassChange(w0, w, c) && EveryId(w0.Rows(c), Local, visited)
    ensures NoLocalUpTo(w.Rows(c), last) ==> NoLocal(w.Rows(c))
  {
    NoneLocalAbove(w0, w, c, last);
    forall id
      ensures id in visited <==> id in Above(w0.Rows(c), Local, 0)
    {
      assert id !in Above(w0.Rows(c), Local, last);
    }
  }

  lemma NoneLocalAbove(w0: World, w: World, c: PhotoClass, last: nat)
    requires ClassFrame(w0, w, c, last) && Above(w0.Rows(c), Local, last) == {}
    ensures forall id | id in w.Rows(c) && id > last :: w.Rows(c)[id].backend.S3?
  {
    forall id | id in w.Rows(c) && id > last
      ensures w.Rows(c)[id].backend.S3?
    {
      assert id !in Above(w0.Rows(c), Local, last);
    }
  }

  lemma LoopSettles(cfg: Config, w0: World, w: World, c: PhotoClass, last: nat)
    requires ClassFrame(w0, w, c, last) && Above(w0.Rows(c), Local, last) == {} && SettledUpTo(cfg, w, c, last)
    ensures ClassSettled(cfg, w, c)
  {
    NoneLocalAbove(w0, w, c, last);
  }

  lemma ReclaimsEverywhere(w0: World, w: World, c: PhotoClass, last: nat)
    requires ReclaimsUpTo(w0, w, c, last) && Above(w0.Rows(c), Local, last) == {}
    ensures Reclaims(w0, w, c)
  {
    forall id | id in w0.Rows(c) && w0.Rows(c)[id].backend.Local?
      ensures id <= last
    {
      assert id !in Above(w0.Rows(c), Local, last);
    }
  }

  lemma StaysSettled(cfg: Config, cs: set<PhotoClass>, w: World, w': World, c: PhotoClass)
    requires OnTheWay(cfg, cs, w, w') && c in cs && ClassSettled(cfg, w, c)
    ensures ClassSettled(cfg, w', c)
  {
    forall id | id in w'.Rows(c)
      ensures !Moves(cfg, w', c, id)
      ensures forall k :: UploadedBy(cfg, w', c, id, k) ==> k in w'.target
    {
      assert SettledUpTo(cfg, w, c, id);
      SettledStaysSettled(cfg, cs, w, w', c, id);
    }
  }

  /** A row already on the target whose intact bytes still lie in an unneeded local file. */
  ghost predicate Leftover(cfg: Config, w: World, c: PhotoClass, id: nat) {
    && id in w.Rows(c) && w.Rows(c)[id].backend.S3?
    && var ref := w.Rows(c)[id].ref;
    && ref in w.local && w.Rows(c)[id].hash == Some(cfg.digest(w.local[ref]))
    && Intact(cfg, w.target, ref, cfg.digest(w.local[ref]))
    && !References(w.album, ref) && !References(w.chore, ref)
  }

  /** A migrated row whose local file has its recorded hash, but whose object cannot be trusted. */
  predicate BadTarget(cfg: Config, w: World, row: Row) {
    row.ref in w.local && row.hash == Some(cfg.digest(w.local[row.ref])) &&
      !Intact(cfg, w.target, row.ref, cfg.digest(w.local[row.ref]))
  }

  /** The rows of the class whose object the sweep finds it cannot trust. */
  function BadTargets(cfg: Config, w: World, c: PhotoClass): set<PhotoId> {
    set id | id in w.Rows(c) && w.Rows(c)[id].backend.S3? && BadTarget(cfg, w, w.Rows(c)[id])
  }

  function BadTargetsUpTo(cfg: Config, w: World, c: PhotoClass, after: nat): set<PhotoId> {
    set id | id in BadTargets(cfg, w, c) && id <= after
  }

  /** The migrated rows whose local file is there with its recorded hash. */
  function Suspects(cfg: Config, w: World, c: PhotoClass): set<PhotoId> {
    set id | id in w.Rows(c) && w.Rows(c)[id].backend.S3? && w.Rows(c)[id].ref in w.local
             && w.Rows(c)[id].hash == Some(cfg.digest(w.local[w.Rows(c)[id].ref]))
  }

  /** A sweep deletes only files whose object is intact, so it leaves alone those whose object is not. */
  ghost predicate OnlyIntactGone(cfg: Config, w0: World, w: World) {
    && w == w0.(local := w.local)
    && (forall f | f in w.local :: f in w0.local && w.local[f] == w0.local[f])
    && forall f | f in w0.local && f !in w.local :: Intact(cfg, w0.target, f, cfg.digest(w0.local[f]))
  }

  /** So a row's object is judged alike throughout a sweep. */
  lemma BadTargetStays(cfg: Config, w0: World, w: World, row: Row)
    requires OnlyIntactGone(cfg, w0, w)
    ensures BadTarget(cfg, w, row) <==> BadTarget(cfg, w0, row)
  {
  }

  ghost predicate SweptUpTo(cfg: Config, w: World, c: PhotoClass, after: nat) {
    forall id: nat | id <= after :: !Leftover(cfg, w, c, id)
  }

  /** What a sweep that started in w0 has done when it reached the cursor: the files gone, and the rows found bad. */
  ghost predicate SweptFrom(cfg: Config, faulty: bool, w0: World, w: World, c: PhotoClass, after: nat, deleted: nat,
                            bad: set<PhotoId>)
  {
    && OnlyIntactGone(cfg, w0, w) && deleted + |w.local| == |w0.local|
    && bad <= Suspects(cfg, w0, c) && (forall id | id in bad :: id <= after)
    && (!faulty ==> SweptUpTo(cfg, w, c, after) && bad == BadTargetsUpTo(cfg, w0, c, after))
  }

  lemma SweepStarts(cfg: Config, faulty: bool, w0: World, c: PhotoClass)
    ensures SweptFrom(cfg, faulty, w0, w0, c, 0, 0, {})
  {
  }

  lemma SweepUnchanged(cfg: Config, faulty: bool, w0: World, w: World, c: PhotoClass, after: nat, deleted: nat,
                       bad: set<PhotoId>, id: nat)
    requires SweptFrom(cfg, faulty, w0, w, c, after, deleted, bad) && IsNext(w0.Rows(c), S3, after, id)
    ensures w.Rows(c) == w0.Rows(c) && id in w.Rows(c) && w.Rows(c)[id].backend.S3? && id > after
  {
  }

  /** Sweeping another row leaves nothing behind for a row swept before. */
  lemma SweptNext(cfg: Config, w: World, w': World, c: PhotoClass, after: nat, id: nat)
    requires SweptUpTo(cfg, w, c, after) && IsNext(w.Rows(c), S3, after, id) && !Leftover(cfg, w', c, id)
    requires w' == w.(local := w'.local) && forall f | f in w'.local :: f in w.local && w'.local[f] == w.local[f]
    ensures SweptUpTo(cfg, w', c, id)
  {
    forall other: nat | other <= id
      ensures !Leftover(cfg, w', c, other)
    {
      if other <= after {
        assert !Leftover(cfg, w, c, other);
      } else if other < id {
        assert other !in Above(w.Rows(c), S3, after);
      }
    }
  }

  function Including(bad: set<PhotoId>, id: PhotoId, failed: bool): set<PhotoId> {
    if failed then bad + {id} else bad
  }

  /** One more row swept: its file went, its object was found bad, or neither. */
  lemma SweptFromNext(cfg: Config, faulty: bool, w0: World, w: World, w': World, c: PhotoClass, after: nat, id: PhotoId,
                      gone: bool, failed: bool, deleted: nat, bad: set<PhotoId>)
    requires SweptFrom(cfg, faulty, w0, w, c, after, deleted, bad) && IsNext(w0.Rows(c), S3, after, id)
    requires w' == if gone then w.(local := w.local - {w0.Rows(c)[id].ref}) else w
    requires gone ==> Leftover(cfg, w, c, id)
    requires failed ==> !gone && id in Suspects(cfg, w, c)
    requires !faulty ==> (gone <==> Leftover(cfg, w, c, id)) && (failed <==> BadTarget(cfg, w, w0.Rows(c)[id]))
    ensures SweptFrom(cfg, faulty, w0, w', c, id, if gone then deleted + 1 else deleted, Including(bad, id, failed))
    ensures |Including(bad, id, failed)| == if failed then |bad| + 1 else |bad|
  {
    SweepUnchanged(cfg, faulty, w0, w, c, after, deleted, bad, id);
    OneMoreBad(cfg, faulty, w0, w, c, after, deleted, bad, id, failed);
    OneMoreSwept(cfg, faulty, w0, w, w', c, after, deleted, bad, id, gone);
    hide Leftover, OnlyIntactGone, BadTarget, Suspects, SweptUpTo, BadTargetsUpTo, IsNext, Including;
  }

  lemma OneMoreBad(cfg: Config, faulty: bool, w0: World, w: World, c: PhotoClass, after: nat, deleted: nat,
                   bad: set<PhotoId>, id: PhotoId, failed: bool)
    requires SweptFrom(cfg, faulty, w0, w, c, after, deleted, bad) && IsNext(w0.Rows(c), S3, after, id)
    requires failed ==> id in Suspects(cfg, w, c)
    requires !faulty ==> (failed <==> BadTarget(cfg, w, w0.Rows(c)[id]))
    ensures Including(bad, id, failed) <= Suspects(cfg, w0, c)
    ensures forall other | other in Including(bad, id, failed) :: other <= id
    ensures |Including(bad, id, failed)| == if failed then |bad| + 1 else |bad|
    ensures !faulty ==> Including(bad, id, failed) == BadTargetsUpTo(cfg, w0, c, id)
  {
    SweepUnchanged(cfg, faulty, w0, w, c, after, deleted, bad, id);
    SuspectBefore(cfg, w0, w, c, id);
    BadTargetStays(cfg, w0, w, w0.Rows(c)[id]);
    NextBadTarget(cfg, w0, c, after, id);
    hide OnlyIntactGone, BadTarget, Suspects, SweptUpTo, BadTargetsUpTo, IsNext;
  }

  lemma OneMoreSwept(cfg: Config, faulty: bool, w0: World, w: World, w': World, c: PhotoClass, after: nat, deleted: nat,
                     bad: set<PhotoId>, id: PhotoId, gone: bool)
    requires SweptFrom(cfg, faulty, w0, w, c, after, deleted, bad) && IsNext(w0.Rows(c), S3, after, id)
    requires w' == if gone then w.(local := w.local - {w0.Rows(c)[id].ref}) else w
    requires gone ==> Leftover(cfg, w, c, id)
    requires !faulty ==> (gone <==> Leftover(cfg, w, c, id))
    ensures OnlyIntactGone(cfg, w0, w')
    ensures (if gone then deleted + 1 else deleted) + |w'.local| == |w0.local|
    ensures !faulty ==> SweptUpTo(cfg, w', c, id)
  {
    SweepUnchanged(cfg, faulty, w0, w, c, after, deleted, bad, id);
    if gone { OneFileLess(w, w', w0.Rows(c)[id].ref); }
    GoneWereIntact(cfg, w0, w, w', c, id, gone);
    if !faulty { SweptNext(cfg, w, w', c, after, id); }
    hide OnlyIntactGone, Suspects, BadTargetsUpTo, IsNext, Leftover;
  }

  lemma OneFileLess(w: World, w': World, ref: Ref)
    requires ref in w.local && w'.local == w.local - {ref}
    ensures |w'.local| + 1 == |w.local|
  {
    assert w.local.Keys == w'.local.Keys + {ref};
  }

  lemma GoneWereIntact(cfg: Config, w0: World, w: World, w': World, c: PhotoClass, id: nat, gone: bool)
    requires OnlyIntactGone(cfg, w0, w) && id in w.Rows(c)
    requires w' == if gone then w.(local := w.local - {w.Rows(c)[id].ref}) else w
    requires gone ==> Leftover(cfg, w, c, id)
    ensures OnlyIntactGone(cfg, w0, w')
    ensures w' == w.(local := w'.local) && forall f | f in w'.local :: f in w.local && w'.local[f] == w.local[f]
    ensures gone ==> !Leftover(cfg, w', c, id)
  {
  }

  lemma SuspectBefore(cfg: Config, w0: World, w: World, c: PhotoClass, id: nat)
    requires OnlyIntactGone(cfg, w0, w) && id in w.Rows(c)
    ensures id in Suspects(cfg, w, c) ==> id in Suspects(cfg, w0, c)
  {
  }

  lemma NextBadTarget(cfg: Config, w: World, c: PhotoClass, after: nat, id: nat)
    requires IsNext(w.Rows(c), S3, after, id)
    ensures BadTargetsUpTo(cfg, w, c, id)
         == BadTargetsUpTo(cfg, w, c, after) + if BadTarget(cfg, w, w.Rows(c)[id]) then {id} else {}
  {
    hide BadTarget;
    forall other: PhotoId | after < other < id
      ensures other !in BadTargets(cfg, w, c)
    {
      assert other !in Above(w.Rows(c), S3, after);
    }
  }

  /** What holds when a listing from the cursor comes back empty. */
  lemma SweptSoFar(cfg: Config, faulty: bool, w0: World, w: World, c: PhotoClass, after: nat, deleted: nat,
                   bad: set<PhotoId>)
    requires SweptFrom(cfg, faulty, w0, w, c, after, deleted, bad)
    ensures w.Rows(c) == w0.Rows(c) && OnlyIntactGone(cfg, w0, w) && deleted + |w.local| == |w0.local|
    ensures bad <= Suspects(cfg, w0, c)
    ensures !faulty && Above(w0.Rows(c), S3, after) == {} ==>
              bad == BadTargets(cfg, w0, c) && forall id: nat :: !Leftover(cfg, w, c, id)
  {
    if !faulty && Above(w0.Rows(c), S3, after) == {} {
      SweptBefore(cfg, w, c, after);
      forall id | id in BadTargets(cfg, w0, c)
        ensures id <= after
      {
        assert id !in Above(w0.Rows(c), S3, after);
      }
    }
  }

  lemma SweptBefore(cfg: Config, w: World, c: PhotoClass, after: nat)
    requires Above(w.Rows(c), S3, after) == {}
    ensures SweptUpTo(cfg, w, c, after) ==> forall id: nat :: !Leftover(cfg, w, c, id)
  {
    forall id: nat | id > after
      ensures !Leftover(cfg, w, c, id)
    {
      assert id !in Above(w.Rows(c), S3, after);
    }
  }

  // ---- What a class pass with deletion leaves ----

  ghost predicate Needed(w: World, ref: Ref) {
    References(w.album, ref) || References(w.chore, ref)
  }

  /** Of the files that rows of the class had, up to the cursor, only those a local row needs are left. */
  ghost predicate ReclaimsUpTo(w0: World, w: World, c: PhotoClass, after: nat) {
    forall id | id in w0.Rows(c) && id <= after && w0.Rows(c)[id].backend.Local? && w0.Rows(c)[id].ref in w.local ::
      Needed(w, w0.Rows(c)[id].ref)
  }

  ghost predicate Reclaims(w0: World, w: World, c: PhotoClass) {
    forall id | id in w0.Rows(c) && w0.Rows(c)[id].backend.Local? && w0.Rows(c)[id].ref in w.local ::
      Needed(w, w0.Rows(c)[id].ref)
  }

  /** One row's pass takes away no need but its own. */
  lemma NeedStays(w: World, w': World, c: PhotoClass, id: nat, ref: Ref)
    requires OnlyRow(w, w', c, id) && Needed(w, ref)
    ensures Needed(w', ref) || (id in w.Rows(c) && w.Rows(c)[id].backend.Local? && w.Rows(c)[id].ref == ref)
  {
    if References(w.album, ref) {
      ReferenceStays(w, w', c, id, Album, ref);
    } else {
      ReferenceStays(w, w', c, id, ChoreProof, ref);
    }
  }

  lemma ReferenceStays(w: World, w': World, c: PhotoClass, id: nat, d: PhotoClass, ref: Ref)
    requires OnlyRow(w, w', c, id) && References(w.Rows(d), ref)
    ensures References(w'.Rows(d), ref) || (id in w.Rows(c) && w.Rows(c)[id].backend.Local? && w.Rows(c)[id].ref == ref)
  {
    var other :| other in w.Rows(d) && w.Rows(d)[other].backend.Local? && w.Rows(d)[other].ref == ref;
    if d != c || other != id { assert w'.Rows(d)[other] == w.Rows(d)[other]; }
  }

  lemma ReclaimsNext(w0: World, w: World, w': World, c: PhotoClass, after: nat, id: nat)
    requires ClassFrame(w0, w, c, after) && IsNext(w0.Rows(c), Local, after, id) && OnlyRow(w, w', c, id)
    requires ReclaimsUpTo(w0, w, c, after)
    requires w0.Rows(c)[id].ref in w'.local ==> Needed(w', w0.Rows(c)[id].ref)
    ensures ReclaimsUpTo(w0, w', c, id)
  {
    NoneBetween(w0.Rows(c), Local, after, id);
    NextIsUnchanged(w0, w, c, after, id);
    forall other | other in w0.Rows(c) && other <= id && w0.Rows(c)[other].backend.Local? &&
      w0.Rows(c)[other].ref in w'.local
      ensures Needed(w', w0.Rows(c)[other].ref)
    {
      if other != id { NeedStays(w, w', c, id, w0.Rows(c)[other].ref); }
    }
  }

  /** Deleting more files, of no row's need, keeps what was reclaimed reclaimed. */
  lemma SweepStillReclaims(w0: World, mid: World, w: World, c: PhotoClass)
    requires Reclaims(w0, mid, c) && w == mid.(local := w.local)
    requires forall f | f in w.local :: f in mid.local
    ensures Reclaims(w0, w, c)
  {
  }

  // ---- Several classes ----

  /** Another class's pass that reclaims its own files keeps the earlier classes' files reclaimed. */
  lemma ReclaimsCompose(w0: World, w: World, w': World, c: PhotoClass, d: PhotoClass)
    requires ClassChange(w, w', d) && Reclaims(w0, w, c) && Reclaims(w, w', d)
    ensures Reclaims(w0, w', c)
  {
    forall id | id in w0.Rows(c) && w0.Rows(c)[id].backend.Local? && w0.Rows(c)[id].ref in w'.local
      ensures Needed(w', w0.Rows(c)[id].ref)
    {
      var ref := w0.Rows(c)[id].ref;
      if References(w.album, ref) {
        NeedOutlivesClass(w, w', d, Album, ref);
      } else {
        NeedOutlivesClass(w, w', d, ChoreProof, ref);
      }
    }
  }

  lemma NeedOutlivesClass(w: World, w': World, d: PhotoClass, e: PhotoClass, ref: Ref)
    requires ClassChange(w, w', d) && Reclaims(w, w', d) && References(w.Rows(e), ref) && ref in w'.local
    ensures Needed(w', ref)
  {
    var other :| other in w.Rows(e) && w.Rows(e)[other].backend.Local? && w.Rows(e)[other].ref == ref;
    if w'.Rows(e)[other] == w.Rows(e)[other] { LocalRowReferences(w'.Rows(e), other); }
  }

  /** A pass over another class brings no leftover file of this one back, when refs are canonical. */
  lemma OtherClassLeavesNothing(cfg: Config, w: World, w': World, c: PhotoClass, d: PhotoClass, id: nat)
    requires Canonical(cfg, w) && ClassChange(w, w', d) && d != c
    requires forall k | k in w.target :: k in w'.target && w'.target[k] == w.target[k]
    requires !Leftover(cfg, w, c, id)
    ensures !Leftover(cfg, w', c, id)
  {
    if id in w.Rows(c) {
      var ref := w.Rows(c)[id].ref;
      assert ClassOfKey(ref) == Some(c) && w'.Rows(c)[id] == w.Rows(c)[id];
      ReferencesStay(cfg, w, w', c, d, ref, Album);
      ReferencesStay(cfg, w, w', c, d, ref, ChoreProof);
      assert ref in w'.target ==> ref in w.target;
    }
  }

  lemma ReferencesStay(cfg: Config, w: World, w': World, c: PhotoClass, d: PhotoClass, ref: Ref, e: PhotoClass)
    requires Canonical(cfg, w) && ClassChange(w, w', d) && d != c && ClassOfKey(ref) == Some(c)
    ensures References(w.Rows(e), ref) ==> References(w'.Rows(e), ref)
  {
    if References(w.Rows(e), ref) {
      var other :| other in w.Rows(e) && w.Rows(e)[other].backend.Local? && w.Rows(e)[other].ref == ref;
      assert ClassOfKey(w.Rows(e)[other].ref) == Some(e);
      assert w'.Rows(e)[other] == w.Rows(e)[other];
    }
  }

  /** Only rows of the classes processed so far have changed. */
  ghost predicate UntouchedBut(w0: World, w: World, processed: set<PhotoClass>) {
    forall d | d !in processed :: w.Rows(d) == w0.Rows(d)
  }

  /** The classes have no local row left and, with deletion, no file that rows of theirs had and no local row needs. */
  ghost predicate AllMigrated(w0: World, w: World, cs: set<PhotoClass>, deleteLocal: bool) {
    forall c | c in cs :: NoLocal(w.Rows(c)) && (deleteLocal ==> Reclaims(w0, w, c))
  }

  lemma NothingMigratedYet(w0: World, deleteLocal: bool)
    ensures UntouchedBut(w0, w0, {}) && AllMigrated(w0, w0, {}, deleteLocal)
  {
  }

  lemma ClassesNext(w0: World, w: World, w': World, processed: set<PhotoClass>, c: PhotoClass, deleteLocal: bool)
    requires UntouchedBut(w0, w, processed) && ClassChange(w, w', c)
    ensures UntouchedBut(w0, w', processed + {c})
    ensures AllMigrated(w0, w, processed, deleteLocal) && NoLocal(w'.Rows(c)) &&
            (deleteLocal ==> Reclaims(w, w', c)) ==>
              AllMigrated(w0, w', processed + {c}, deleteLocal)
  {
    OthersUntouched(w, w', c);
    NoLocalStays(w, w', c);
    if AllMigrated(w0, w, processed, deleteLocal) && deleteLocal && Reclaims(w, w', c) {
      forall d | d in processed + {c}
        ensures Reclaims(w0, w', d)
      {
        if d in processed {
          ReclaimsCompose(w0, w, w', d, c);
        } else {
          SameRowsReclaim(w0, w, w', c);
        }
      }
    }
    hide NoLocal, Reclaims, ClassChange;
  }

  lemma OthersUntouched(w: World, w': World, c: PhotoClass)
    requires ClassChange(w, w', c)
    ensures forall d | d != c :: w'.Rows(d) == w.Rows(d)
  {
    forall d | d != c
      ensures w'.Rows(d) == w.Rows(d)
    {
      assert w'.Rows(d).Keys == w.Rows(d).Keys;
    }
  }

  lemma SameRowsReclaim(w0: World, w: World, w': World, c: PhotoClass)
    requires w.Rows(c) == w0.Rows(c) && Reclaims(w, w', c)
    ensures Reclaims(w0, w', c)
  {
  }

  /** Settled classes without leftovers hold no reclaimable file. */
  lemma NothingLeftIsSwept(cfg: Config, cs: set<PhotoClass>, w: World)
    requires Settled(cfg, cs, w)
    requires forall c, id: nat | c in cs :: !Leftover(cfg, w, c, id)
    ensures Swept(cfg, cs, w)
  {
    forall f | f in w.local
      ensures !Reclaimed(cfg, cs, w, f)
    {
      if Reclaimed(cfg, cs, w, f) {
        var c, id :| OwnedBy(cfg, cs, w, f, c, id);
        assert w.Rows(c)[id] == FutureRow(cfg, cs, w, c, id);
        forall e, other | other in w.Rows(e) && w.Rows(e)[other].backend.Local?
          ensures w.Rows(e)[other].ref != f
        {
          assert FutureRow(cfg, cs, w, e, other) == w.Rows(e)[other];
        }
        assert !References(w.Rows(Album), f) && !References(w.Rows(ChoreProof), f);
        assert Leftover(cfg, w, c, id);
      }
    }
  }

  /** The classes processed so far, of a run over cs that started in w0. */
  ghost predicate Processed(cfg: Config, cs: set<PhotoClass>, w: World, processed: set<PhotoClass>, swept: bool) {
    forall c | c in processed :: ClassSettled(cfg, w, c) && (swept ==> forall id: nat :: !Leftover(cfg, w, c, id))
  }

  lemma ProcessedNext(cfg: Config, cs: set<PhotoClass>, w: World, w': World, processed: set<PhotoClass>, swept: bool,
                      d: PhotoClass)
    requires Processed(cfg, cs, w, processed, swept) && processed <= cs && d in cs
    requires OnTheWay(cfg, cs, w, w') && ClassChange(w, w', d)
    requires ClassSettled(cfg, w', d) && (swept ==> Canonical(cfg, w) && forall id: nat :: !Leftover(cfg, w', d, id))
    ensures Processed(cfg, cs, w', processed + {d}, swept)
  {
    hide ClassSettled, Leftover, Canonical, ClassChange;
    forall c | c in processed && c != d
      ensures ClassSettled(cfg, w', c)
      ensures swept ==> forall id: nat :: !Leftover(cfg, w', c, id)
    {
      StaysSettled(cfg, cs, w, w', c);
      if swept {
        forall id: nat
          ensures !Leftover(cfg, w', c, id)
        {
          assert !Leftover(cfg, w, c, id);
          OtherClassLeavesNothing(cfg, w, w', c, d, id);
        }
      }
    }
  }

  function Members(cs: seq<PhotoClass>): set<PhotoClass> {
    set c | c in cs
  }

  lemma MembersNext(cs: seq<PhotoClass>, i: nat)
    requires i < |cs|
    ensures Members(cs[..i + 1]) == Members(cs[..i]) + {cs[i]} && cs[i] in Members(cs)
  {
    assert cs[..i + 1] == cs[..i] + [cs[i]];
  }
}
