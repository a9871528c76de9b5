/** Where a fault-free migration ends up, as a closed form on any state it passes through. */
module MigrationOutcome {
  import opened Prelude
  import opened StorageKeys
  import opened Photos
  import opened MigrationProtocol

  // ---- The closed form ----

  /** A local row that passes every check: its file is there, its type known, its size and recorded hash
      right, and its canonical key is free or already holds an object with its digest. */
  predicate Good(cfg: Config, w: World, c: PhotoClass, row: Row) {
    && row.backend.Local? && c != Unspecified && row.ref in w.local
    && Acceptable(cfg, row, w.local[row.ref])
    && var key := KeyOf(cfg, c, row, w.local[row.ref]);
    (key in w.target ==> Intact(cfg, w.target, key, cfg.digest(w.local[row.ref])))
  }

  /** `other` carries, or will be given before row `id`, the hash h that row `id` still lacks. */
  predicate Claims(cfg: Config, w: World, other: nat, id: nat, h: Digest)
    requires other in w.album && id in w.album
  {
    var rival := w.album[other];
    && other != id && rival.household == w.album[id].household
    && (rival.hash == Some(h)
        || (other < id && rival.hash.None? && Good(cfg, w, Album, rival) && cfg.digest(w.local[rival.ref]) == h))
  }

  /** The unique index on (household, hash) keeps this album row out: it has no recorded hash, and another
      row of its household has, or gets first, the hash of the same bytes. */
  ghost predicate Outranked(cfg: Config, w: World, c: PhotoClass, id: nat) {
    && c.Album? && id in w.album && w.album[id].hash.None? && w.album[id].ref in w.local
    && exists other :: other in w.album && Claims(cfg, w, other, id, cfg.digest(w.local[w.album[id].ref]))
  }

  /** The rows a fault-free migration of their class moves. */
  ghost predicate Moves(cfg: Config, w: World, c: PhotoClass, id: nat) {
    id in w.Rows(c) && Good(cfg, w, c, w.Rows(c)[id]) && !Outranked(cfg, w, c, id)
  }

  datatype Outcome = Migrated | AlreadyMigrated | HashMismatch | TargetIntegrityFailed | Error

  /** What a fault-free pass reports of a local row. */
  ghost function VerdictOf(cfg: Config, w: World, c: PhotoClass, id: nat): Outcome
    requires id in w.Rows(c)
  {
    var row := w.Rows(c)[id];
    if row.ref !in w.local || ExtensionForContentType(row.contentType).None? then Error
    else if |w.local[row.ref]| > cfg.maxUploadBytes then Error
    else if !Acceptable(cfg, row, w.local[row.ref]) then HashMismatch
    else if !Good(cfg, w, c, row) then TargetIntegrityFailed
    else if Outranked(cfg, w, c, id) then Error
    else Migrated
  }

  lemma VerdictOfGood(cfg: Config, w: World, c: PhotoClass, id: nat)
    requires id in w.Rows(c) && Good(cfg, w, c, w.Rows(c)[id])
    ensures VerdictOf(cfg, w, c, id) == if Moves(cfg, w, c, id) then Migrated else Error
  {
  }

  ghost function FutureRow(cfg: Config, cs: set<PhotoClass>, w: World, c: PhotoClass, id: nat): Row
    requires id in w.Rows(c)
  {
    var row := w.Rows(c)[id];
    if c in cs && Moves(cfg, w, c, id) then
      Flipped(c, row, KeyOf(cfg, c, row, w.local[row.ref]), cfg.digest(w.local[row.ref]))
    else row
  }

  ghost predicate UploadedBy(cfg: Config, w: World, c: PhotoClass, id: nat, k: Ref) {
    id in w.Rows(c) && Good(cfg, w, c, w.Rows(c)[id]) && KeyOf(cfg, c, w.Rows(c)[id], w.local[w.Rows(c)[id].ref]) == k
  }

  /** The keys of the target once every class in cs is migrated: those it has, and one per good row's key. */
  ghost predicate FutureKey(cfg: Config, cs: set<PhotoClass>, w: World, k: Ref) {
    k in w.target || exists c, id :: c in cs && UploadedBy(cfg, w, c, id, k)
  }

  // ---- The unique index, row by row ----

  /** No row of the class before id is still to move. */
  ghost predicate NoneBefore(cfg: Config, w: World, c: PhotoClass, id: nat) {
    forall other | other in w.Rows(c) && other < id :: !Moves(cfg, w, c, other)
  }

  /** When every earlier row that could move has moved, the unique index refuses exactly the outranked rows. */
  lemma {:induction false} RefusedIffOutranked(cfg: Config, w: World, c: PhotoClass, id: nat)
    requires id in w.Rows(c) && Good(cfg, w, c, w.Rows(c)[id])
    requires NoneBefore(cfg, w, c, id)
    ensures HashTaken(w, c, id, w.Rows(c)[id], cfg.digest(w.local[w.Rows(c)[id].ref])) <==> Outranked(cfg, w, c, id)
    decreases id
  {
    if Outranked(cfg, w, c, id) {
      var h := cfg.digest(w.local[w.album[id].ref]);
      var other :| other in w.album && Claims(cfg, w, other, id, h);
      if w.album[other].hash != Some(h) {
        assert !Moves(cfg, w, Album, other);
        RefusedIffOutranked(cfg, w, Album, other);
      }
    }
  }

  lemma HashTakenIsOutranked(cfg: Config, w: World, c: PhotoClass, id: nat)
    requires id in w.Rows(c) && w.Rows(c)[id].ref in w.local
    requires HashTaken(w, c, id, w.Rows(c)[id], cfg.digest(w.local[w.Rows(c)[id].ref]))
    ensures Outranked(cfg, w, c, id)
  {
    var h := cfg.digest(w.local[w.album[id].ref]);
    var other :| other in w.album && other != id && w.album[other].household == w.album[id].household
                 && w.album[other].hash == Some(h);
    assert Claims(cfg, w, other, id, h);
  }

  /** The row's flip would be applied now: it passes every check, and the unique index lets it through. */
  ghost predicate Flippable(cfg: Config, w: World, c: PhotoClass, id: nat) {
    && id in w.Rows(c) && Good(cfg, w, c, w.Rows(c)[id])
    && !HashTaken(w, c, id, w.Rows(c)[id], cfg.digest(w.local[w.Rows(c)[id].ref]))
  }

  /** Rows of a class are walked in ascending order: no earlier one is left that could be flipped. */
  ghost predicate InTurn(cfg: Config, w: World, c: PhotoClass, id: nat) {
    forall other | other in w.Rows(c) && other < id :: !Flippable(cfg, w, c, other)
  }

  /** What is left to flip before a row is what is left to move before it. */
  lemma InTurnIffNoneBefore(cfg: Config, w: World, c: PhotoClass, id: nat)
    ensures InTurn(cfg, w, c, id) <==> NoneBefore(cfg, w, c, id)
  {
    forall other | other in w.Rows(c) && Moves(cfg, w, c, other)
      ensures Flippable(cfg, w, c, other)
    {
      if !Flippable(cfg, w, c, other) { HashTakenIsOutranked(cfg, w, c, other); }
    }
    if NoneBefore(cfg, w, c, id) {
      forall other | other in w.Rows(c) && other < id
        ensures !Flippable(cfg, w, c, other)
      {
        if Good(cfg, w, c, w.Rows(c)[other]) { RefusedIffOutranked(cfg, w, c, other); }
      }
    }
  }

  /** In turn, the rows that can be flipped are exactly those the closed form says move. */
  lemma FlippableIffMoves(cfg: Config, w: World, c: PhotoClass, id: nat)
    requires InTurn(cfg, w, c, id)
    ensures Flippable(cfg, w, c, id) <==> Moves(cfg, w, c, id)
  {
    InTurnIffNoneBefore(cfg, w, c, id);
    if id in w.Rows(c) && Good(cfg, w, c, w.Rows(c)[id]) { RefusedIffOutranked(cfg, w, c, id); }
  }

  // ---- Fault-free steps ----

  /** A step of a process that runs alone, meets no failing call, works on current rows of cs and flips those
      of one class in ascending order. Without faults a flip is refused only by the unique index. */
  ghost predicate CleanTake(cfg: Config, cs: set<PhotoClass>, act: Action, w: World, a: Agent, w': World, a': Agent) {
    && Take(cfg, true, act, w, a, w', a')
    && match act
       case Open(l) => l.c in cs && l.id in w.Rows(l.c) && w.Rows(l.c)[l.id] == l.row
       case SweepOpen(l) => l.c in cs && l.id in w.Rows(l.c) && w.Rows(l.c)[l.id] == l.row
       case Put(stored, ok) => ok && stored == Some(a.phase.data)
       case Flip(applied, ok) =>
         && applied == ok && InTurn(cfg, w, a.phase.c, a.phase.id)
         && (!applied ==> RefusedNow(cfg, w, a.phase))
       case _ => true
  }

  ghost predicate RefusedNow(cfg: Config, w: World, p: Phase)
    requires p.Verified?
  {
    p.id in w.Rows(p.c) && HashTaken(w, p.c, p.id, w.Rows(p.c)[p.id], cfg.digest(p.data))
  }

  ghost predicate Current(w: World, c: PhotoClass, id: nat, row: Row, data: Bytes) {
    id in w.Rows(c) && w.Rows(c)[id] == row && row.ref in w.local && data == w.local[row.ref]
  }

  ghost predicate Done(cfg: Config, w: World, c: PhotoClass, id: nat, ref: Ref, key: Ref, h: Digest) {
    && id in w.Rows(c) && w.Rows(c)[id].backend.S3? && w.Rows(c)[id].ref == key
    && (w.Rows(c)[id].hash.None? || w.Rows(c)[id].hash == Some(h))
    && Intact(cfg, w.target, key, h)
    && (ref in w.local ==> cfg.digest(w.local[ref]) == h)
  }

  ghost predicate CleanPhase(cfg: Config, cs: set<PhotoClass>, w: World, p: Phase) {
    match p
    case Idle => true
    case Opened(c, id, row, data) => c in cs && row.backend.Local? && Current(w, c, id, row, data)
    case Absent(c, id, row, data) =>
      && c in cs && row.backend.Local? && Current(w, c, id, row, data)
      && c != Unspecified && Acceptable(cfg, row, data) && KeyOf(cfg, c, row, data) !in w.target
    case Present(c, id, row, data) => c in cs && row.backend.Local? && Current(w, c, id, row, data)
    case Verified(c, id, row, data) =>
      && c in cs && row.backend.Local? && Current(w, c, id, row, data)
      && c != Unspecified && Acceptable(cfg, row, data)
      && Intact(cfg, w.target, KeyOf(cfg, c, row, data), cfg.digest(data))
    case SweepOpened(c, id, row, data) => c in cs && row.backend.S3? && Current(w, c, id, row, data)
    case Release(c, id, ref, key, h) => c in cs && Done(cfg, w, c, id, ref, key, h)
    case AlbumFree(c, id, ref, key, h) => c in cs && Done(cfg, w, c, id, ref, key, h) && !References(w.album, ref)
    case Unreferenced(c, id, ref, key, h) =>
      c in cs && Done(cfg, w, c, id, ref, key, h) && !References(w.album, ref) && !References(w.chore, ref)
  }

  // ---- The outcome does not change along the way ----

  /** w is on the way from w0 to the same outcome. */
  ghost predicate OnTheWay(cfg: Config, cs: set<PhotoClass>, w0: World, w: World) {
    && (forall c :: w.Rows(c).Keys == w0.Rows(c).Keys)
    && (forall c, id | id in w.Rows(c) :: FutureRow(cfg, cs, w, c, id) == FutureRow(cfg, cs, w0, c, id))
    && (forall c, id | id in w.Rows(c) :: w.Rows(c)[id].backend.Local? ==> w.Rows(c)[id] == w0.Rows(c)[id])
    && (forall c, id | id in w.Rows(c) && c !in cs :: w.Rows(c)[id] == w0.Rows(c)[id])
    && (forall k :: FutureKey(cfg, cs, w, k) <==> FutureKey(cfg, cs, w0, k))
    && (forall f | f in w.local :: f in w0.local && w.local[f] == w0.local[f])
    && (forall k | k in w0.target :: k in w.target && w.target[k] == w0.target[k])
    && (forall k | k in w.target && k !in w0.target ::
          exists c, id :: c in cs && UploadedBy(cfg, w0, c, id, k) && w.target[k] == w0.local[w0.Rows(c)[id].ref])
  }

  lemma OnTheWayReflexive(cfg: Config, cs: set<PhotoClass>, w: World)
    ensures OnTheWay(cfg, cs, w, w)
  {
  }

  /** A good row of a later state was good, with the same key and bytes, in the earlier one. */
  lemma UploadsTraceBack(cfg: Config, cs: set<PhotoClass>, w0: World, w: World, c: PhotoClass, id: nat, k: Ref)
    requires OnTheWay(cfg, cs, w0, w) && UploadedBy(cfg, w, c, id, k)
    ensures UploadedBy(cfg, w0, c, id, k) && w.local[w.Rows(c)[id].ref] == w0.local[w0.Rows(c)[id].ref]
  {
    assert w.Rows(c)[id] == w0.Rows(c)[id];
  }

  lemma OnTheWayTransitive(cfg: Config, cs: set<PhotoClass>, w0: World, w1: World, w2: World)
    requires OnTheWay(cfg, cs, w0, w1) && OnTheWay(cfg, cs, w1, w2)
    ensures OnTheWay(cfg, cs, w0, w2)
  {
    forall k | k in w2.target && k !in w0.target
      ensures exists c, id :: c in cs && UploadedBy(cfg, w0, c, id, k) && w2.target[k] == w0.local[w0.Rows(c)[id].ref]
    {
      if k !in w1.target {
        var c, id :| c in cs && UploadedBy(cfg, w1, c, id, k) && w2.target[k] == w1.local[w1.Rows(c)[id].ref];
        UploadsTraceBack(cfg, cs, w0, w1, c, id, k);
      }
    }
  }

  /** Two states judge every row that is local in the second alike. */
  ghost predicate SameJudgement(cfg: Config, w: World, w': World) {
    forall c, id | id in w'.Rows(c) && w'.Rows(c)[id].backend.Local? ::
      var row := w'.Rows(c)[id];
      && (Good(cfg, w, c, row) <==> Good(cfg, w', c, row))
      && (row.ref in w.local <==> row.ref in w'.local)
      && (row.ref in w.local && row.ref in w'.local ==> w.local[row.ref] == w'.local[row.ref])
  }

  lemma SameRowsSameFuture(cfg: Config, cs: set<PhotoClass>, w: World, w': World, c: PhotoClass, id: nat)
    requires w'.album == w.album && w'.chore == w.chore && SameJudgement(cfg, w, w')
    requires id in w.Rows(c)
    ensures FutureRow(cfg, cs, w', c, id) == FutureRow(cfg, cs, w, c, id)
    ensures w.Rows(c)[id].backend.Local? ==> forall k :: UploadedBy(cfg, w', c, id, k) <==> UploadedBy(cfg, w, c, id, k)
  {
    var row := w.Rows(c)[id];
    assert w'.Rows(c)[id] == row;
    if row.backend.Local? && c.Album? && row.ref in w.local {
      var h := cfg.digest(w.local[row.ref]);
      forall other | other in w.album
        ensures Claims(cfg, w, other, id, h) <==> Claims(cfg, w', other, id, h)
      {
        assert w'.Rows(Album)[other] == w.album[other];
      }
    }
  }

  lemma PutKeepsJudgement(cfg: Config, cs: set<PhotoClass>, w: World, p: Phase, w': World)
    requires p.Absent? && CleanPhase(cfg, cs, w, p)
    requires w' == w.(target := w.target[KeyOf(cfg, p.c, p.row, p.data) := p.data])
    ensures SameJudgement(cfg, w, w')
  {
    forall c, id | id in w.Rows(c) && w.Rows(c)[id].backend.Local?
      ensures Good(cfg, w, c, w.Rows(c)[id]) <==> Good(cfg, w', c, w.Rows(c)[id])
    {
      var row := w.Rows(c)[id];
      if c != Unspecified && row.ref in w.local && Acceptable(cfg, row, w.local[row.ref])
         && KeyOf(cfg, c, row, w.local[row.ref]) == KeyOf(cfg, p.c, p.row, p.data) {
        EqualKeysEqualDigests(cfg, c, row, w.local[row.ref], p.c, p.row, p.data);
      }
    }
  }

  /** Adding a good row's object, or deleting a file no row needs, changes nothing about the outcome. */
  lemma SameJudgementOnTheWay(cfg: Config, cs: set<PhotoClass>, w: World, w': World)
    requires w'.album == w.album && w'.chore == w.chore && SameJudgement(cfg, w, w')
    requires forall f | f in w'.local :: f in w.local && w'.local[f] == w.local[f]
    requires forall k | k in w.target :: k in w'.target && w'.target[k] == w.target[k]
    requires forall k | k in w'.target && k !in w.target ::
               exists c, id :: c in cs && UploadedBy(cfg, w, c, id, k) && w'.target[k] == w.local[w.Rows(c)[id].ref]
    ensures OnTheWay(cfg, cs, w, w')
  {
    forall c, id | id in w.Rows(c)
      ensures FutureRow(cfg, cs, w', c, id) == FutureRow(cfg, cs, w, c, id)
      ensures forall k :: UploadedBy(cfg, w', c, id, k) <==> UploadedBy(cfg, w, c, id, k)
    {
      SameRowsSameFuture(cfg, cs, w, w', c, id);
    }
    assert forall c :: w'.Rows(c) == w.Rows(c);
    hide FutureRow, KeyOf, Good, SameJudgement;
    assert forall c, id, k :: UploadedBy(cfg, w', c, id, k) <==> UploadedBy(cfg, w, c, id, k);
    hide UploadedBy;
  }

  lemma PutOnTheWay(cfg: Config, cs: set<PhotoClass>, w: World, p: Phase, w': World)
    requires p.Absent? && CleanPhase(cfg, cs, w, p)
    requires w' == w.(target := w.target[KeyOf(cfg, p.c, p.row, p.data) := p.data])
    ensures OnTheWay(cfg, cs, w, w')
  {
    assert UploadedBy(cfg, w, p.c, p.id, KeyOf(cfg, p.c, p.row, p.data));
    PutKeepsJudgement(cfg, cs, w, p, w');
    hide SameJudgement, OnTheWay, UploadedBy, KeyOf;
    SameJudgementOnTheWay(cfg, cs, w, w');
  }

  lemma DeleteOnTheWay(cfg: Config, cs: set<PhotoClass>, w: World, p: Phase, w': World)
    requires p.Unreferenced? && CleanPhase(cfg, cs, w, p)
    requires w' == w.(local := w.local - {p.ref})
    ensures OnTheWay(cfg, cs, w, w')
  {
    forall c, id | id in w.Rows(c) && w.Rows(c)[id].backend.Local?
      ensures w.Rows(c)[id].ref != p.ref
    {
      LocalRowReferences(w.Rows(c), id);
    }
    assert SameJudgement(cfg, w, w');
    hide SameJudgement, OnTheWay;
    SameJudgementOnTheWay(cfg, cs, w, w');
  }

  /** Moving one row changes no other row's prospects: what it claims after the move, it claimed before. */
  lemma FlipSparesOthers(cfg: Config, w: World, c: PhotoClass, moved: nat, w': World, id: nat)
    requires Moves(cfg, w, c, moved)
    requires var row := w.Rows(c)[moved];
             w' == w.SetRow(c, moved,
               Flipped(c, row, KeyOf(cfg, c, row, w.local[row.ref]), cfg.digest(w.local[row.ref])))
    requires id in w.album && (c.Album? ==> id != moved) && Good(cfg, w, Album, w.album[id])
    ensures Outranked(cfg, w', Album, id) <==> Outranked(cfg, w, Album, id)
  {
    if c.Album? && w.album[id].hash.None? {
      var h := cfg.digest(w.local[w.album[id].ref]);
      forall other | other in w.album
        ensures Claims(cfg, w', other, id, h) <==> Claims(cfg, w, other, id, h)
      {
        assert other == moved && w.album[moved].hash.None?
          ==> !Claims(cfg, w, id, moved, cfg.digest(w.local[w.album[moved].ref]));
      }
    }
  }

  /** The row in hand is moved by its flip exactly when the closed form says so. */
  lemma VerifiedIsFlippable(cfg: Config, cs: set<PhotoClass>, w: World, p: Phase)
    requires p.Verified? && CleanPhase(cfg, cs, w, p) && InTurn(cfg, w, p.c, p.id)
    ensures Moves(cfg, w, p.c, p.id) <==> !RefusedNow(cfg, w, p)
    ensures Good(cfg, w, p.c, w.Rows(p.c)[p.id])
  {
    FlippableIffMoves(cfg, w, p.c, p.id);
  }

  lemma FlipKeepsFuture(cfg: Config, cs: set<PhotoClass>, w: World, p: Phase, w': World, c: PhotoClass, id: nat)
    requires p.Verified? && CleanPhase(cfg, cs, w, p) && Moves(cfg, w, p.c, p.id) && id in w.Rows(c)
    requires w' == w.SetRow(p.c, p.id,
               Flipped(p.c, w.Rows(p.c)[p.id], KeyOf(cfg, p.c, p.row, p.data), cfg.digest(p.data)))
    ensures FutureRow(cfg, cs, w', c, id) == FutureRow(cfg, cs, w, c, id)
    ensures forall k :: UploadedBy(cfg, w', c, id, k) <==> UploadedBy(cfg, w, c, id, k) && (c != p.c || id != p.id)
    ensures w'.Rows(c)[id] == w.Rows(c)[id] || (w'.Rows(c)[id].backend.S3? && c in cs)
  {
    if c != p.c || id != p.id {
      assert w'.Rows(c)[id] == w.Rows(c)[id];
      if c.Album? && Good(cfg, w, c, w.Rows(c)[id]) {
        FlipSparesOthers(cfg, w, p.c, p.id, w', id);
      }
    }
  }

  lemma FlipKeepsKey(cfg: Config, cs: set<PhotoClass>, w: World, p: Phase, w': World, k: Ref)
    requires p.Verified? && CleanPhase(cfg, cs, w, p) && Moves(cfg, w, p.c, p.id)
    requires w' == w.SetRow(p.c, p.id,
               Flipped(p.c, w.Rows(p.c)[p.id], KeyOf(cfg, p.c, p.row, p.data), cfg.digest(p.data)))
    ensures FutureKey(cfg, cs, w', k) <==> FutureKey(cfg, cs, w, k)
  {
    if c, id :| c in cs && UploadedBy(cfg, w, c, id, k) { FlipKeepsFuture(cfg, cs, w, p, w', c, id); }
    if c, id :| c in cs && UploadedBy(cfg, w', c, id, k) { FlipKeepsFuture(cfg, cs, w, p, w', c, id); }
  }

  lemma FlipOnTheWay(cfg: Config, cs: set<PhotoClass>, w: World, p: Phase, w': World)
    requires p.Verified? && CleanPhase(cfg, cs, w, p) && Moves(cfg, w, p.c, p.id)
    requires w' == w.SetRow(p.c, p.id,
               Flipped(p.c, w.Rows(p.c)[p.id], KeyOf(cfg, p.c, p.row, p.data), cfg.digest(p.data)))
    ensures OnTheWay(cfg, cs, w, w')
  {
    hide FutureRow, FutureKey, UploadedBy, Flipped, KeyOf, Good, Outranked;
    forall c, id | id in w.Rows(c)
      ensures FutureRow(cfg, cs, w', c, id) == FutureRow(cfg, cs, w, c, id)
      ensures w'.Rows(c)[id] == w.Rows(c)[id] || (w'.Rows(c)[id].backend.S3? && c in cs)
    {
      FlipKeepsFuture(cfg, cs, w, p, w', c, id);
    }
    forall k
      ensures FutureKey(cfg, cs, w', k) <==> FutureKey(cfg, cs, w, k)
    {
      FlipKeepsKey(cfg, cs, w, p, w', k);
    }
  }

  /** Each fault-free step leads on towards the same outcome. */
  lemma CleanStepOnTheWay(cfg: Config, cs: set<PhotoClass>, act: Action, w: World, a: Agent, w': World, a': Agent)
    requires CleanPhase(cfg, cs, w, a.phase) && CleanTake(cfg, cs, act, w, a, w', a')
    ensures OnTheWay(cfg, cs, w, w')
    ensures CleanPhase(cfg, cs, w', a'.phase)
  {
    hide OnTheWay;
    OnTheWayReflexive(cfg, cs, w);
    match act
    case Put(stored, ok) => PutOnTheWay(cfg, cs, w, a.phase, w');
    case Flip(applied, ok) =>
      VerifiedIsFlippable(cfg, cs, w, a.phase);
      if applied { FlipOnTheWay(cfg, cs, w, a.phase, w'); }
    case DeleteLocal => DeleteOnTheWay(cfg, cs, w, a.phase, w');
    case _ =>
  }

  /** Along the way, a row that has not changed still moves or still does not. */
  lemma SameProspects(cfg: Config, cs: set<PhotoClass>, w: World, w': World, c: PhotoClass, id: nat)
    requires OnTheWay(cfg, cs, w, w') && c in cs && id in w.Rows(c) && w'.Rows(c)[id] == w.Rows(c)[id]
    ensures Moves(cfg, w', c, id) <==> Moves(cfg, w, c, id)
  {
    assert FutureRow(cfg, cs, w', c, id) == FutureRow(cfg, cs, w, c, id);
  }

  /** Along the way, what an unchanged local row will be reported as does not change either. */
  lemma SameVerdict(cfg: Config, cs: set<PhotoClass>, w: World, w': World, c: PhotoClass, id: nat)
    requires OnTheWay(cfg, cs, w, w') && c in cs && id in w.Rows(c) && w'.Rows(c)[id] == w.Rows(c)[id]
    requires w.Rows(c)[id].backend.Local? && (w.Rows(c)[id].ref in w.local ==> w.Rows(c)[id].ref in w'.local)
    ensures VerdictOf(cfg, w', c, id) == VerdictOf(cfg, w, c, id)
  {
    var row := w.Rows(c)[id];
    SameProspects(cfg, cs, w, w', c, id);
    if Good(cfg, w, c, row) {
      GoodStaysGood(cfg, cs, w, w', c, id);
    } else if Good(cfg, w', c, row) {
      UploadsTraceBack(cfg, cs, w, w', c, id, KeyOf(cfg, c, row, w'.local[row.ref]));
    }
    hide OnTheWay, Outranked;
  }

  lemma GoodStaysGood(cfg: Config, cs: set<PhotoClass>, w: World, w': World, c: PhotoClass, id: nat)
    requires OnTheWay(cfg, cs, w, w') && id in w.Rows(c) && w'.Rows(c)[id] == w.Rows(c)[id]
    requires Good(cfg, w, c, w.Rows(c)[id]) && w.Rows(c)[id].ref in w'.local
    ensures Good(cfg, w', c, w.Rows(c)[id])
  {
    var row := w.Rows(c)[id];
    var data := w.local[row.ref];
    var k := KeyOf(cfg, c, row, data);
    if k in w'.target && k !in w.target {
      var d, other :| d in cs && UploadedBy(cfg, w, d, other, k) && w'.target[k] == w.local[w.Rows(d)[other].ref];
      EqualKeysEqualDigests(cfg, c, row, data, d, w.Rows(d)[other], w'.target[k]);
    }
  }

  // ---- Runs and their end ----

  ghost predicate CleanStep(cfg: Config, cs: set<PhotoClass>, s: System, s': System) {
    && |s.agents| == 1 && |s'.agents| == 1
    && exists act :: CleanTake(cfg, cs, act, s.w, s.agents[0], s'.w, s'.agents[0])
  }

  ghost predicate CleanStepAt(cfg: Config, cs: set<PhotoClass>, run: seq<System>, n: nat)
    requires n + 1 < |run|
  {
    CleanStep(cfg, cs, run[n], run[n + 1])
  }

  /** A fault-free run over the classes cs; it may also stop and start again between any two calls. */
  ghost predicate IsCleanRun(cfg: Config, cs: set<PhotoClass>, run: seq<System>) {
    && |run| > 0 && |run[0].agents| == 1
    && forall n | 0 <= n < |run| - 1 :: CleanStepAt(cfg, cs, run, n)
  }

  lemma {:induction false} CleanRunOnTheWay(cfg: Config, cs: set<PhotoClass>, run: seq<System>, m: nat, n: nat)
    requires IsCleanRun(cfg, cs, run) && run[0].agents[0].phase.Idle? && m <= n < |run|
    ensures |run[n].agents| == 1 && CleanPhase(cfg, cs, run[n].w, run[n].agents[0].phase)
    ensures OnTheWay(cfg, cs, run[m].w, run[n].w)
    decreases n
  {
    hide OnTheWay, CleanTake;
    if n == 0 {
      OnTheWayReflexive(cfg, cs, run[0].w);
    } else {
      var s, s' := run[n - 1], run[n];
      CleanRunOnTheWay(cfg, cs, run, if m < n then m else n - 1, n - 1);
      assert CleanStepAt(cfg, cs, run, n - 1);
      var act :| CleanTake(cfg, cs, act, s.w, s.agents[0], s'.w, s'.agents[0]);
      CleanStepOnTheWay(cfg, cs, act, s.w, s.agents[0], s'.w, s'.agents[0]);
      if m < n {
        OnTheWayTransitive(cfg, cs, run[m].w, s.w, s'.w);
      } else {
        OnTheWayReflexive(cfg, cs, s'.w);
      }
    }
  }

  /** Nothing of cs is left to move or upload. */
  ghost predicate Settled(cfg: Config, cs: set<PhotoClass>, w: World) {
    forall c, id | c in cs && id in w.Rows(c) ::
      && !Moves(cfg, w, c, id)
      && forall k :: UploadedBy(cfg, w, c, id, k) ==> k in w.target
  }

  /** Settled, for the rows of one class with ids up to the cursor. */
  ghost predicate SettledUpTo(cfg: Config, w: World, c: PhotoClass, after: nat) {
    forall id | id in w.Rows(c) && id <= after ::
      && !Moves(cfg, w, c, id)
      && forall k :: UploadedBy(cfg, w, c, id, k) ==> k in w.target
  }

  lemma SettledStaysSettled(cfg: Config, cs: set<PhotoClass>, w: World, w': World, c: PhotoClass, after: nat)
    requires OnTheWay(cfg, cs, w, w') && c in cs && SettledUpTo(cfg, w, c, after)
    ensures SettledUpTo(cfg, w', c, after)
  {
    forall id | id in w'.Rows(c) && id <= after
      ensures !Moves(cfg, w', c, id)
      ensures forall k :: UploadedBy(cfg, w', c, id, k) ==> k in w'.target
    {
      assert FutureRow(cfg, cs, w', c, id) == FutureRow(cfg, cs, w, c, id);
      forall k | UploadedBy(cfg, w', c, id, k)
        ensures k in w'.target
      {
        UploadsTraceBack(cfg, cs, w, w', c, id, k);
      }
    }
  }

  ghost predicate Completes(cfg: Config, cs: set<PhotoClass>, w0: World, w: World) {
    OnTheWay(cfg, cs, w0, w) && Settled(cfg, cs, w)
  }

  /** The closed form: a completed run's rows and object keys as functions of the state it started in.
      A row of cs ends on the target exactly when Moves holds of it at the start. */
  lemma CompletedIsClosedForm(cfg: Config, cs: set<PhotoClass>, w0: World, w: World)
    requires Completes(cfg, cs, w0, w)
    ensures forall c :: w.Rows(c).Keys == w0.Rows(c).Keys
    ensures forall c, id | id in w0.Rows(c) :: w.Rows(c)[id] == FutureRow(cfg, cs, w0, c, id)
    ensures forall c, id | c in cs && id in w0.Rows(c) && w0.Rows(c)[id].backend.Local? ::
              w.Rows(c)[id].backend.S3? <==> Moves(cfg, w0, c, id)
    ensures forall k :: k in w.target <==> FutureKey(cfg, cs, w0, k)
  {
    forall c, id | id in w0.Rows(c)
      ensures w.Rows(c)[id] == FutureRow(cfg, cs, w0, c, id)
    {
      assert FutureRow(cfg, cs, w, c, id) == w.Rows(c)[id];
    }
    forall k
      ensures k in w.target <==> FutureKey(cfg, cs, w0, k)
    {
      assert FutureKey(cfg, cs, w, k) <==> k in w.target;
    }
  }

  /** No two local files differ with the same digest. */
  ghost predicate CollisionFree(cfg: Config, w: World) {
    forall f, g | f in w.local && g in w.local ::
      cfg.digest(w.local[f]) == cfg.digest(w.local[g]) ==> w.local[f] == w.local[g]
  }

  /** Whatever the batches, the class order, the interruptions and the delete-local setting, completed runs
      from one state agree on every row and every object key; objects at one key agree in digest, and in
      every byte unless two local files collide. */
  lemma CompletedRunsAgree(cfg: Config, cs: set<PhotoClass>, w0: World, w1: World, w2: World)
    requires Completes(cfg, cs, w0, w1) && Completes(cfg, cs, w0, w2)
    ensures w1.album == w2.album && w1.chore == w2.chore
    ensures w1.target.Keys == w2.target.Keys
    ensures forall k | k in w1.target && k in w2.target :: cfg.digest(w1.target[k]) == cfg.digest(w2.target[k])
    ensures CollisionFree(cfg, w0) ==> w1.target == w2.target
  {
    hide FutureRow, FutureKey, Settled, OnTheWay, CollisionFree;
    CompletedIsClosedForm(cfg, cs, w0, w1);
    CompletedIsClosedForm(cfg, cs, w0, w2);
    assert w1.Rows(Album) == w2.Rows(Album) && w1.Rows(ChoreProof) == w2.Rows(ChoreProof);
    assert forall k :: k in w1.target <==> k in w2.target;
    forall k | k in w1.target && k in w2.target
      ensures cfg.digest(w1.target[k]) == cfg.digest(w2.target[k])
      ensures CollisionFree(cfg, w0) ==> w1.target[k] == w2.target[k]
    {
      ObjectsAgree(cfg, cs, w0, w1, w2, k);
    }
  }

  /** Whatever two runs left at one key came from rows with that key. */
  lemma ObjectsAgree(cfg: Config, cs: set<PhotoClass>, w0: World, w1: World, w2: World, k: Ref)
    requires OnTheWay(cfg, cs, w0, w1) && OnTheWay(cfg, cs, w0, w2)
    requires k in w1.target && k in w2.target
    ensures cfg.digest(w1.target[k]) == cfg.digest(w2.target[k])
    ensures CollisionFree(cfg, w0) ==> w1.target[k] == w2.target[k]
  {
    hide FutureRow, FutureKey;
    if k !in w0.target {
      var c1, i1 :| c1 in cs && UploadedBy(cfg, w0, c1, i1, k) && w1.target[k] == w0.local[w0.Rows(c1)[i1].ref];
      var c2, i2 :| c2 in cs && UploadedBy(cfg, w0, c2, i2, k) && w2.target[k] == w0.local[w0.Rows(c2)[i2].ref];
      EqualKeysEqualDigests(cfg, c1, w0.Rows(c1)[i1], w1.target[k], c2, w0.Rows(c2)[i2], w2.target[k]);
    }
  }

  /** Resumability: stop a fault-free run after any step n, start afresh and run to the end; the result is
      that of a run never interrupted. */
  lemma ResumedRunAgrees(cfg: Config, cs: set<PhotoClass>, run: seq<System>, n: nat, resumed: World,
                         uninterrupted: World)
    requires IsCleanRun(cfg, cs, run) && run[0].agents[0].phase.Idle? && n < |run|
    requires Completes(cfg, cs, run[n].w, resumed) && Completes(cfg, cs, run[0].w, uninterrupted)
    ensures resumed.album == uninterrupted.album && resumed.chore == uninterrupted.chore
    ensures resumed.target.Keys == uninterrupted.target.Keys
    ensures CollisionFree(cfg, run[0].w) ==> resumed.target == uninterrupted.target
  {
    CleanRunOnTheWay(cfg, cs, run, 0, n);
    OnTheWayTransitive(cfg, cs, run[0].w, run[n].w, resumed);
    CompletedRunsAgree(cfg, cs, run[0].w, resumed, uninterrupted);
  }
}
