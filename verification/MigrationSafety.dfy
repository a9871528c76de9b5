/** What every state of every run keeps, whatever fails and wherever processes stop. */
module MigrationSafety {
  import opened Prelude
  import opened StorageKeys
  import opened Photos
  import opened MigrationProtocol

  /** A row is as it started, or it moved to the canonical key of its original bytes, which are intact there. */
  ghost predicate RowState(cfg: Config, w0: World, w: World, c: PhotoClass, row0: Row, row: Row) {
    || row == row0
    || (&& row0.backend.Local? && c != Unspecified && row0.ref in w0.local
        && var data := w0.local[row0.ref];
        && Acceptable(cfg, row0, data)
        && row == Flipped(c, row0, KeyOf(cfg, c, row0, data), cfg.digest(data))
        && Intact(cfg, w.target, KeyOf(cfg, c, row0, data), cfg.digest(data)))
  }

  /** k is a canonical key for contents with digest h. */
  ghost predicate KeyedBy(k: Ref, h: Digest) {
    exists household, c, ext :: c != Unspecified && BuildStorageKey(household, c, h, ext) == Some(k)
  }

  ghost predicate RowsKept(cfg: Config, w0: World, w: World, c: PhotoClass) {
    && w.Rows(c).Keys == w0.Rows(c).Keys
    && forall id | id in w0.Rows(c) ::
         && RowState(cfg, w0, w, c, w0.Rows(c)[id], w.Rows(c)[id])
         && (w.Rows(c)[id].backend.Local? && w.Rows(c)[id].ref in w0.local ==> w.Rows(c)[id].ref in w.local)
  }

  ghost predicate WorldInv(cfg: Config, solo: bool, w0: World, w: World) {
    && RowsKept(cfg, w0, w, Album) && RowsKept(cfg, w0, w, ChoreProof)
    && (forall f | f in w.local :: f in w0.local && w.local[f] == w0.local[f])
    && (forall k | k in w0.target :: k in w.target && w.target[k] == w0.target[k])
    && (!solo ==> forall k | k in w.target && k !in w0.target ::
          KeyedBy(k, cfg.digest(w.target[k])) && |w.target[k]| <= cfg.maxUploadBytes)
  }

  ghost predicate InHand(w0: World, c: PhotoClass, id: nat, row: Row, data: Bytes) {
    && id in w0.Rows(c) && row == w0.Rows(c)[id] && row.backend.Local?
    && row.ref in w0.local && data == w0.local[row.ref]
  }

  ghost predicate Releasable(cfg: Config, w0: World, w: World, ref: Ref, key: Ref, h: Digest) {
    Intact(cfg, w.target, key, h) && (ref in w0.local ==> cfg.digest(w0.local[ref]) == h)
  }

  ghost predicate PhaseInv(cfg: Config, solo: bool, w0: World, w: World, p: Phase) {
    match p
    case Idle => true
    case Opened(c, id, row, data) => InHand(w0, c, id, row, data)
    case Absent(c, id, row, data) =>
      && InHand(w0, c, id, row, data) && c != Unspecified && Acceptable(cfg, row, data)
      && KeyOf(cfg, c, row, data) !in w0.target
      && (solo ==> KeyOf(cfg, c, row, data) !in w.target)
    case Present(c, id, row, data) => InHand(w0, c, id, row, data)
    case Verified(c, id, row, data) =>
      && InHand(w0, c, id, row, data) && c != Unspecified && Acceptable(cfg, row, data)
      && Intact(cfg, w.target, KeyOf(cfg, c, row, data), cfg.digest(data))
    case SweepOpened(c, id, row, data) => row.ref in w0.local && data == w0.local[row.ref]
    case Release(c, id, ref, key, h) => Releasable(cfg, w0, w, ref, key, h)
    case AlbumFree(c, id, ref, key, h) => Releasable(cfg, w0, w, ref, key, h) && !References(w.album, ref)
    case Unreferenced(c, id, ref, key, h) =>
      Releasable(cfg, w0, w, ref, key, h) && !References(w.album, ref) && !References(w.chore, ref)
  }

  ghost predicate AgentInv(cfg: Config, solo: bool, w0: World, w: World, a: Agent) {
    && (forall l | l in a.seen && l.row.backend.Local? :: l.id in w0.Rows(l.c) && l.row == w0.Rows(l.c)[l.id])
    && PhaseInv(cfg, solo, w0, w, a.phase)
  }

  ghost predicate Inv(cfg: Config, w0: World, s: System) {
    && WorldInv(cfg, |s.agents| == 1, w0, s.w)
    && forall i | 0 <= i < |s.agents| :: AgentInv(cfg, |s.agents| == 1, w0, s.w, s.agents[i])
  }

  /** Some copy of contents with digest h exists in one of the two stores. */
  ghost predicate Holds(cfg: Config, w: World, h: Digest) {
    || (exists f :: f in w.local && cfg.digest(w.local[f]) == h)
    || (exists k :: k in w.target && cfg.digest(w.target[k]) == h)
  }

  // ---- Uploads ----

  /** An upload never damages an object that was verified with its digest: alone, a process writes only
      where there was nothing; among others, whatever is written at a key carries that key's digest. */
  lemma PutKeepsIntact(cfg: Config, solo: bool, w0: World, w: World, p: Phase, stored: Bytes, k: Ref, h: Digest)
    requires WorldInv(cfg, solo, w0, w) && p.Absent? && PhaseInv(cfg, solo, w0, w, p)
    requires !solo ==> stored == p.data
    requires Intact(cfg, w.target, k, h)
    ensures Intact(cfg, w.target[KeyOf(cfg, p.c, p.row, p.data) := stored], k, h)
  {
    var key := KeyOf(cfg, p.c, p.row, p.data);
    if k == key {
      assert KeyedBy(k, cfg.digest(w.target[k]));
      var household, c, ext :| c != Unspecified && BuildStorageKey(household, c, h, ext) == Some(k);
      BuiltKeysAreInjective(household, c, h, ext, p.row.household, p.c, cfg.digest(p.data),
        ExtensionForContentType(p.row.contentType).value);
    }
  }

  lemma PutKeepsWorldInv(cfg: Config, solo: bool, w0: World, w: World, p: Phase, stored: Bytes, w': World)
    requires WorldInv(cfg, solo, w0, w) && p.Absent? && PhaseInv(cfg, solo, w0, w, p)
    requires !solo ==> stored == p.data
    requires w' == w.(target := w.target[KeyOf(cfg, p.c, p.row, p.data) := stored])
    ensures WorldInv(cfg, solo, w0, w')
  {
    forall c, id | c in {Album, ChoreProof} && id in w0.Rows(c)
      ensures RowState(cfg, w0, w', c, w0.Rows(c)[id], w.Rows(c)[id])
    {
      var row0, row := w0.Rows(c)[id], w.Rows(c)[id];
      assert RowState(cfg, w0, w, c, row0, row);
      if row != row0 {
        var data := w0.local[row0.ref];
        PutKeepsIntact(cfg, solo, w0, w, p, stored, KeyOf(cfg, c, row0, data), cfg.digest(data));
      }
    }
    assert KeyedBy(KeyOf(cfg, p.c, p.row, p.data), cfg.digest(p.data)) by {
      assert BuildStorageKey(p.row.household, p.c, cfg.digest(p.data), ExtensionForContentType(p.row.contentType).value)
          == Some(KeyOf(cfg, p.c, p.row, p.data));
    }
  }

  // ---- Flips ----

  lemma FlipKeepsRows(cfg: Config, w0: World, w: World, p: Phase, w': World, c: PhotoClass)
    requires RowsKept(cfg, w0, w, c) && p.Verified? && PhaseInv(cfg, false, w0, w, p)
    requires p.id in w.Rows(p.c) && w.Rows(p.c)[p.id].backend.Local?
    requires w' == w.SetRow(p.c, p.id,
               Flipped(p.c, w.Rows(p.c)[p.id], KeyOf(cfg, p.c, p.row, p.data), cfg.digest(p.data)))
    ensures RowsKept(cfg, w0, w', c)
  {
    forall id | id in w0.Rows(c)
      ensures RowState(cfg, w0, w', c, w0.Rows(c)[id], w'.Rows(c)[id])
      ensures w'.Rows(c)[id].backend.Local? && w'.Rows(c)[id].ref in w0.local ==> w'.Rows(c)[id].ref in w'.local
    {
      FlipKeepsRow(cfg, w0, w, p, w', c, id);
    }
    hide RowState, PhaseInv;
  }

  lemma FlipKeepsRow(cfg: Config, w0: World, w: World, p: Phase, w': World, c: PhotoClass, id: nat)
    requires RowsKept(cfg, w0, w, c) && p.Verified? && PhaseInv(cfg, false, w0, w, p)
    requires p.id in w.Rows(p.c) && w.Rows(p.c)[p.id].backend.Local?
    requires w' == w.SetRow(p.c, p.id,
               Flipped(p.c, w.Rows(p.c)[p.id], KeyOf(cfg, p.c, p.row, p.data), cfg.digest(p.data)))
    requires id in w0.Rows(c)
    ensures RowState(cfg, w0, w', c, w0.Rows(c)[id], w'.Rows(c)[id])
    ensures w'.Rows(c)[id].backend.Local? && w'.Rows(c)[id].ref in w0.local ==> w'.Rows(c)[id].ref in w'.local
  {
    hide Intact;
    assert RowState(cfg, w0, w, c, w0.Rows(c)[id], w.Rows(c)[id]);
    if c != p.c || id != p.id {
      assert w'.Rows(c)[id] == w.Rows(c)[id];
    }
  }

  lemma FlipAddsNoReference(w: World, c: PhotoClass, id: nat, row: Row, d: PhotoClass)
    requires id in w.Rows(c) && row.backend.S3?
    ensures forall ref :: References(w.SetRow(c, id, row).Rows(d), ref) ==> References(w.Rows(d), ref)
  {
    var w' := w.SetRow(c, id, row);
    forall ref | References(w'.Rows(d), ref)
      ensures References(w.Rows(d), ref)
    {
      var other :| other in w'.Rows(d) && w'.Rows(d)[other].backend.Local? && w'.Rows(d)[other].ref == ref;
      assert w.Rows(d)[other].ref == ref;
    }
  }

  lemma FlipKeepsWorldInv(cfg: Config, solo: bool, w0: World, w: World, p: Phase, w': World)
    requires WorldInv(cfg, solo, w0, w) && p.Verified? && PhaseInv(cfg, solo, w0, w, p)
    requires p.id in w.Rows(p.c) && w.Rows(p.c)[p.id].backend.Local?
    requires w' == w.SetRow(p.c, p.id,
               Flipped(p.c, w.Rows(p.c)[p.id], KeyOf(cfg, p.c, p.row, p.data), cfg.digest(p.data)))
    ensures WorldInv(cfg, solo, w0, w')
    ensures forall ref :: References(w'.album, ref) ==> References(w.album, ref)
    ensures forall ref :: References(w'.chore, ref) ==> References(w.chore, ref)
  {
    hide RowsKept;
    FlipKeepsRows(cfg, w0, w, p, w', Album);
    FlipKeepsRows(cfg, w0, w, p, w', ChoreProof);
    var row := Flipped(p.c, w.Rows(p.c)[p.id], KeyOf(cfg, p.c, p.row, p.data), cfg.digest(p.data));
    FlipAddsNoReference(w, p.c, p.id, row, Album);
    FlipAddsNoReference(w, p.c, p.id, row, ChoreProof);
  }

  // ---- Deletes ----

  lemma DeleteKeepsWorldInv(cfg: Config, solo: bool, w0: World, w: World, p: Phase, w': World)
    requires WorldInv(cfg, solo, w0, w) && p.Unreferenced? && PhaseInv(cfg, solo, w0, w, p)
    requires w' == w.(local := w.local - {p.ref})
    ensures WorldInv(cfg, solo, w0, w')
  {
    forall c, id | c in {Album, ChoreProof} && id in w0.Rows(c) && w.Rows(c)[id].backend.Local? &&
      w.Rows(c)[id].ref in w0.local
      ensures w.Rows(c)[id].ref in w'.local
    {
      LocalRowReferences(w.Rows(c), id);
    }
    forall c, id | c in {Album, ChoreProof} && id in w0.Rows(c)
      ensures RowState(cfg, w0, w', c, w0.Rows(c)[id], w'.Rows(c)[id])
    {
      assert RowState(cfg, w0, w, c, w0.Rows(c)[id], w.Rows(c)[id]);
    }
  }

  // ---- One step ----

  lemma StepKeepsWorldInv(cfg: Config, solo: bool, w0: World, act: Action, w: World, a: Agent, w': World, a': Agent)
    requires WorldInv(cfg, solo, w0, w) && AgentInv(cfg, solo, w0, w, a)
    requires Take(cfg, solo, act, w, a, w', a')
    ensures WorldInv(cfg, solo, w0, w')
  {
    match act
    case Put(stored, ok) =>
      if stored.Some? { PutKeepsWorldInv(cfg, solo, w0, w, a.phase, stored.value, w'); }
    case Flip(applied, ok) =>
      if applied { FlipKeepsWorldInv(cfg, solo, w0, w, a.phase, w'); }
    case DeleteLocal => DeleteKeepsWorldInv(cfg, solo, w0, w, a.phase, w');
    case _ =>
  }

  lemma StepKeepsOwnInv(cfg: Config, solo: bool, w0: World, act: Action, w: World, a: Agent, w': World, a': Agent)
    requires WorldInv(cfg, solo, w0, w) && AgentInv(cfg, solo, w0, w, a)
    requires Take(cfg, solo, act, w, a, w', a')
    ensures AgentInv(cfg, solo, w0, w', a')
  {
    match act
    case List(rows) =>
      forall l | l in rows && l.row.backend.Local?
        ensures l.id in w0.Rows(l.c) && l.row == w0.Rows(l.c)[l.id]
      {
        assert RowsKept(cfg, w0, w, l.c);
        assert RowState(cfg, w0, w, l.c, w0.Rows(l.c)[l.id], w.Rows(l.c)[l.id]);
      }
    case _ =>
  }

  /** What a process knows outlives changes that keep intact objects intact and add no local reference. */
  lemma KnowledgeCarriesOver(cfg: Config, w0: World, w: World, w': World, p: Phase)
    requires PhaseInv(cfg, false, w0, w, p)
    requires forall k, h :: Intact(cfg, w.target, k, h) ==> Intact(cfg, w'.target, k, h)
    requires forall ref :: References(w'.album, ref) ==> References(w.album, ref)
    requires forall ref :: References(w'.chore, ref) ==> References(w.chore, ref)
    ensures PhaseInv(cfg, false, w0, w', p)
  {
  }

  /** What one process knows stays true while another takes a step. */
  lemma StepKeepsOtherInv(cfg: Config, w0: World, act: Action, w: World, a: Agent, w': World, a': Agent, b: Agent)
    requires WorldInv(cfg, false, w0, w) && AgentInv(cfg, false, w0, w, a) && AgentInv(cfg, false, w0, w, b)
    requires Take(cfg, false, act, w, a, w', a')
    ensures AgentInv(cfg, false, w0, w', b)
  {
    hide RowsKept, KeyedBy;
    if act.Put? && act.stored.Some? {
      forall k, h | Intact(cfg, w.target, k, h)
        ensures Intact(cfg, w'.target, k, h)
      {
        PutKeepsIntact(cfg, false, w0, w, a.phase, act.stored.value, k, h);
      }
    } else if act.Flip? && act.applied {
      FlipKeepsWorldInv(cfg, false, w0, w, a.phase, w');
    }
    hide WorldInv, PhaseInv, Intact;
    KnowledgeCarriesOver(cfg, w0, w, w', b.phase);
  }

  /** Contents are never lost: every digest held before a step is held after it. */
  lemma StepKeepsContents(cfg: Config, solo: bool, w0: World, act: Action, w: World, a: Agent, w': World, a': Agent,
                          h: Digest)
    requires WorldInv(cfg, solo, w0, w) && AgentInv(cfg, solo, w0, w, a)
    requires Take(cfg, solo, act, w, a, w', a')
    requires Holds(cfg, w, h)
    ensures Holds(cfg, w', h)
  {
    if f :| f in w.local && cfg.digest(w.local[f]) == h {
      StepKeepsFile(cfg, solo, w0, act, w, a, w', a', f);
    } else {
      var k :| k in w.target && cfg.digest(w.target[k]) == h;
      StepKeepsObject(cfg, solo, w0, act, w, a, w', a', k);
    }
  }

  lemma StepKeepsFile(cfg: Config, solo: bool, w0: World, act: Action, w: World, a: Agent, w': World, a': Agent, f: Ref)
    requires WorldInv(cfg, solo, w0, w) && AgentInv(cfg, solo, w0, w, a)
    requires Take(cfg, solo, act, w, a, w', a') && f in w.local
    ensures Holds(cfg, w', cfg.digest(w.local[f]))
  {
    hide RowsKept;
    if act.DeleteLocal? && f == a.phase.ref {
      assert cfg.digest(w'.target[a.phase.key]) == cfg.digest(w.local[f]);
    } else {
      assert w'.local[f] == w.local[f];
    }
  }

  lemma StepKeepsObject(cfg: Config, solo: bool, w0: World, act: Action, w: World, a: Agent, w': World, a': Agent,
                        k: Ref)
    requires WorldInv(cfg, solo, w0, w) && AgentInv(cfg, solo, w0, w, a)
    requires Take(cfg, solo, act, w, a, w', a') && k in w.target
    ensures k in w'.target && cfg.digest(w'.target[k]) == cfg.digest(w.target[k])
  {
    hide RowsKept;
    var p, h := a.phase, cfg.digest(w.target[k]);
    if act.Put? && act.stored.Some? && k == KeyOf(cfg, p.c, p.row, p.data) {
      assert Intact(cfg, w.target, k, h);
      PutKeepsIntact(cfg, solo, w0, w, p, act.stored.value, k, h);
    }
  }

  // ---- Whole runs ----

  lemma StepKeepsInv(cfg: Config, w0: World, s: System, s': System)
    requires Inv(cfg, w0, s) && Step(cfg, s, s')
    ensures Inv(cfg, w0, s')
    ensures forall h :: Holds(cfg, s.w, h) ==> Holds(cfg, s'.w, h)
  {
    var i: nat, act :| StepOf(cfg, i, act, s, s');
    var solo := |s.agents| == 1;
    var a, a' := s.agents[i], s'.agents[i];
    StepKeepsWorldInv(cfg, solo, w0, act, s.w, a, s'.w, a');
    forall j | 0 <= j < |s'.agents|
      ensures AgentInv(cfg, solo, w0, s'.w, s'.agents[j])
    {
      if j == i {
        StepKeepsOwnInv(cfg, solo, w0, act, s.w, a, s'.w, a');
      } else {
        StepKeepsOtherInv(cfg, w0, act, s.w, a, s'.w, a', s.agents[j]);
      }
    }
    forall h | Holds(cfg, s.w, h)
      ensures Holds(cfg, s'.w, h)
    {
      StepKeepsContents(cfg, solo, w0, act, s.w, a, s'.w, a', h);
    }
  }

  lemma InvInitially(cfg: Config, s: System)
    requires Fresh(s)
    ensures Inv(cfg, s.w, s)
  {
  }

  lemma {:induction false} RunKeepsInv(cfg: Config, run: seq<System>, n: nat)
    requires IsRun(cfg, run) && Fresh(run[0]) && n < |run|
    ensures Inv(cfg, run[0].w, run[n])
  {
    if n > 0 {
      RunKeepsInv(cfg, run, n - 1);
      assert StepAt(cfg, run, n - 1);
      StepKeepsInv(cfg, run[0].w, run[n - 1], run[n]);
    }
  }

  /** No row dangles: in every state of every run, with any number of processes, a row that started with a
      readable copy still has one where its own backend and ref say, with the same digest. */
  lemma NoRowDangles(cfg: Config, run: seq<System>, n: nat, c: PhotoClass, id: nat)
    requires IsRun(cfg, run) && Fresh(run[0]) && n < |run|
    requires id in run[0].w.Rows(c) && Copy(cfg, run[0].w, run[0].w.Rows(c)[id]).Some?
    ensures id in run[n].w.Rows(c)
    ensures Copy(cfg, run[n].w, run[n].w.Rows(c)[id]).Some?
    ensures cfg.digest(Copy(cfg, run[n].w, run[n].w.Rows(c)[id]).value)
         == cfg.digest(Copy(cfg, run[0].w, run[0].w.Rows(c)[id]).value)
  {
    RunKeepsInv(cfg, run, n);
    var w0, w := run[0].w, run[n].w;
    assert RowsKept(cfg, w0, w, c);
    assert RowState(cfg, w0, w, c, w0.Rows(c)[id], w.Rows(c)[id]);
  }

  /** Contents are never lost: between any two states of a run, the digests held in the two stores
      together only grow. */
  lemma {:induction false} ContentsNeverShrink(cfg: Config, run: seq<System>, m: nat, n: nat, h: Digest)
    requires IsRun(cfg, run) && Fresh(run[0]) && m <= n < |run|
    requires Holds(cfg, run[m].w, h)
    ensures Holds(cfg, run[n].w, h)
  {
    if m < n {
      ContentsNeverShrink(cfg, run, m, n - 1, h);
      RunKeepsInv(cfg, run, n - 1);
      assert StepAt(cfg, run, n - 1);
      StepKeepsInv(cfg, run[0].w, run[n - 1], run[n]);
    }
  }
}
