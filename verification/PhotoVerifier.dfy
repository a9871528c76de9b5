/** `storage verify`: cross-checks the two photo tables against the object store and the local files. */
module PhotoVerification {
  import opened Prelude
  import opened StorageKeys
  import opened Photos
  import opened PhotoPorts
  import opened MigrationProtocol
  import opened MigrationSafety
  import opened MigrationOrphans

  const VERIFIED_CLASSES: seq<PhotoClass> := [Album, ChoreProof]

  datatype S3Findings =
    S3Findings(c: PhotoClass, rowsWithoutObject: seq<Ref>, objectsWithoutRow: seq<Ref>, crossPrefixRows: seq<Ref>)

  datatype LocalFindings = LocalFindings(c: PhotoClass, missingFiles: seq<Ref>)

  datatype Report = Report(s3: seq<S3Findings>, local: seq<LocalFindings>)

  // ---- What a report should say ----

  /** The object is there and filed under a class whose objects are listed. */
  predicate IsListed(w: World, ref: Ref) {
    ref in w.target && ClassOfKey(ref).Some? && ClassOfKey(ref).value in VERIFIED_CLASSES
  }

  /** Every finding of a class, with its multiplicity: one entry per row, one per object. */
  ghost predicate IsExact(w: World, c: PhotoClass, f: S3Findings, l: LocalFindings) {
    && f.c == c && l.c == c
    && (forall r :: Occurrences(f.rowsWithoutObject, r) == if IsListed(w, r) then 0 else |Holders(w.Rows(c), S3, r)|)
    && (forall r :: Occurrences(f.crossPrefixRows, r) ==
                      if ClassOfKey(r) in {None, Some(c)} then 0 else |Holders(w.Rows(c), S3, r)|)
    && (forall k :: Occurrences(f.objectsWithoutRow, k) ==
                      if k in w.target && ClassOfKey(k) == Some(c) && !Referenced(w, k) then 1 else 0)
    && (forall r :: Occurrences(l.missingFiles, r) == if r in w.local then 0 else |Holders(w.Rows(c), Local, r)|)
  }

  ghost predicate IsReport(w: World, report: Report) {
    && |report.s3| == |report.local| == |VERIFIED_CLASSES|
    && forall i | 0 <= i < |VERIFIED_CLASSES| :: IsExact(w, VERIFIED_CLASSES[i], report.s3[i], report.local[i])
  }

  // ---- The verifier ----

  method AddAll(refs: set<Ref>, more: seq<Ref>) returns (all: set<Ref>)
    ensures forall r :: r in all <==> r in refs || r in more
  {
    all := refs;
    for i := 0 to |more|
      invariant forall r :: r in all <==> r in refs || r in more[..i]
    {
      all := all + {more[i]};
    }
  }

  /** Classifies one class's rows and objects against the sets of all classes. */
  method ClassifyS3(c: PhotoClass, rowRefs: seq<Ref>, objects: seq<Ref>, globalObjects: set<Ref>, globalRows: set<Ref>)
    returns (f: S3Findings)
    ensures f.c == c
    ensures forall r :: Occurrences(f.rowsWithoutObject, r) == if r in globalObjects then 0 else Occurrences(rowRefs, r)
    ensures forall r :: Occurrences(f.crossPrefixRows, r) ==
                          if ClassOfKey(r) in {None, Some(c)} then 0 else Occurrences(rowRefs, r)
    ensures forall k :: Occurrences(f.objectsWithoutRow, k) == if k in globalRows then 0 else Occurrences(objects, k)
  {
    hide ClassOfKey, Occurrences;
    var missing: seq<Ref>, misfiled: seq<Ref>, unreferenced: seq<Ref> := [], [], [];
    for i := 0 to |rowRefs|
      invariant forall r :: Occurrences(missing, r) == if r in globalObjects then 0 else Occurrences(rowRefs[..i], r)
      invariant forall r :: Occurrences(misfiled, r) ==
                              if ClassOfKey(r) in {None, Some(c)} then 0 else Occurrences(rowRefs[..i], r)
    {
      assert rowRefs[..i + 1] == rowRefs[..i] + [rowRefs[i]];
      OccurrencesSnoc(rowRefs[..i], rowRefs[i]);
      OccurrencesSnoc(missing, rowRefs[i]);
      OccurrencesSnoc(misfiled, rowRefs[i]);
      if rowRefs[i] !in globalObjects { missing := missing + [rowRefs[i]]; }
      var refClass := ClassOfKey(rowRefs[i]);
      if refClass.Some? && refClass.value != c { misfiled := misfiled + [rowRefs[i]]; }
    }
    assert rowRefs[..|rowRefs|] == rowRefs;
    for i := 0 to |objects|
      invariant forall k :: Occurrences(unreferenced, k) == if k in globalRows then 0 else Occurrences(objects[..i], k)
    {
      assert objects[..i + 1] == objects[..i] + [objects[i]];
      OccurrencesSnoc(objects[..i], objects[i]);
      OccurrencesSnoc(unreferenced, objects[i]);
      if objects[i] !in globalRows { unreferenced := unreferenced + [objects[i]]; }
    }
    assert objects[..|objects|] == objects;
    f := S3Findings(c, missing, unreferenced, misfiled);
  }

  /** Whether any row's bytes were not found: exit code 1 of `storage verify`. */
  method HasDataLoss(report: Report) returns (loss: bool)
    ensures loss <==> Alarms(report)
  {
    for i := 0 to |report.s3|
      invariant forall j | 0 <= j < i :: report.s3[j].rowsWithoutObject == []
    {
      if |report.s3[i].rowsWithoutObject| > 0 { return true; }
    }
    for i := 0 to |report.local|
      invariant forall j | 0 <= j < i :: report.local[j].missingFiles == []
    {
      if |report.local[i].missingFiles| > 0 { return true; }
    }
    loss := false;
  }

  predicate Alarms(report: Report) {
    || (exists i :: 0 <= i < |report.s3| && report.s3[i].rowsWithoutObject != [])
    || (exists i :: 0 <= i < |report.local| && report.local[i].missingFiles != [])
  }

  /** The listings of the classes read so far, and the sets built from them. */
  ghost predicate Collected(w: World, cs: seq<PhotoClass>, objects: map<PhotoClass, seq<Ref>>,
                            rowRefs: map<PhotoClass, seq<Ref>>,
                            globalObjects: set<Ref>, globalRows: set<Ref>) {
    && (forall c :: (c in cs <==> c in objects) && (c in cs <==> c in rowRefs))
    && (forall c, k | c in objects ::
          Occurrences(objects[c], k) == if k in w.target && ClassOfKey(k) == Some(c) then 1 else 0)
    && (forall c, r | c in rowRefs :: Occurrences(rowRefs[c], r) == |Holders(w.Rows(c), S3, r)|)
    && (forall k :: k in globalObjects <==> k in w.target && ClassOfKey(k).Some? && ClassOfKey(k).value in cs)
    && (forall r :: r in globalRows <==> exists c :: c in cs && Holders(w.Rows(c), S3, r) != {})
  }

  lemma CollectedNext(w: World, cs: seq<PhotoClass>, objects: map<PhotoClass, seq<Ref>>,
                      rowRefs: map<PhotoClass, seq<Ref>>,
                      globalObjects: set<Ref>, globalRows: set<Ref>,
                      c: PhotoClass, keys: seq<Ref>, refs: seq<Ref>, moreObjects: set<Ref>, moreRows: set<Ref>)
    requires Collected(w, cs, objects, rowRefs, globalObjects, globalRows)
    requires forall k :: Occurrences(keys, k) == if k in w.target && ClassOfKey(k) == Some(c) then 1 else 0
    requires forall r :: Occurrences(refs, r) == |Holders(w.Rows(c), S3, r)|
    requires forall k :: k in moreObjects <==> k in globalObjects || k in keys
    requires forall r :: r in moreRows <==> r in globalRows || r in refs
    ensures Collected(w, cs + [c], objects[c := keys], rowRefs[c := refs], moreObjects, moreRows)
  {
    hide ClassOfKey, Holders, Occurrences;
    forall k
      ensures k in keys <==> k in w.target && ClassOfKey(k) == Some(c)
    {
      assert k in keys <==> Occurrences(keys, k) > 0;
    }
    forall r
      ensures r in moreRows <==> exists d :: d in cs + [c] && Holders(w.Rows(d), S3, r) != {}
    {
      assert r in refs <==> Occurrences(refs, r) > 0;
      assert c in cs + [c] && forall d | d in cs :: d in cs + [c];
    }
  }

  class PhotoVerifier {
    const ports: Stores

    constructor (ports: Stores)
      ensures this.ports == ports
    {
      this.ports := ports;
    }

    /** The local rows of a class whose file is missing. */
    method VerifyLocalClass(c: PhotoClass) returns (r: Result<LocalFindings, PortError>)
      ensures r.Ok? ==> r.value.c == c
      ensures r.Ok? ==> forall f ::
                Occurrences(r.value.missingFiles, f) ==
                  if f in ports.local then 0 else |Holders(ports.Now().Rows(c), Local, f)|
      ensures !ports.faulty ==> r.Ok?
    {
      var rows := ports.ListAllStorageRefs(c, Local);
      if rows.Err? { return Err(rows.error); }
      hide Occurrences, Holders;
      var refs := rows.value;
      var missing: seq<Ref> := [];
      for i := 0 to |refs|
        invariant forall f :: Occurrences(missing, f) == if f in ports.local then 0 else Occurrences(refs[..i], f)
      {
        assert refs[..i + 1] == refs[..i] + [refs[i]];
        OccurrencesSnoc(refs[..i], refs[i]);
        OccurrencesSnoc(missing, refs[i]);
        var file := ports.OpenLocal(refs[i]);
        if file.Err? {
          if !file.error.NotFound? { return Err(file.error); }
          missing := missing + [refs[i]];
        }
      }
      assert refs[..|refs|] == refs;
      r := Ok(LocalFindings(c, missing));
    }

    /** Lists every class's objects and rows, and gathers them into sets over all classes. */
    method Collect() returns (ok: bool, objects: map<PhotoClass, seq<Ref>>, rowRefs: map<PhotoClass, seq<Ref>>,
                              globalObjects: set<Ref>, globalRows: set<Ref>)
      ensures ok ==> Collected(ports.Now(), VERIFIED_CLASSES, objects, rowRefs, globalObjects, globalRows)
      ensures !ports.faulty ==> ok
    {
      objects, rowRefs, globalObjects, globalRows := map[], map[], {}, {};
      for i := 0 to |VERIFIED_CLASSES|
        invariant Collected(ports.Now(), VERIFIED_CLASSES[..i], objects, rowRefs, globalObjects, globalRows)
      {
        var c := VERIFIED_CLASSES[i];
        var keys := ports.ListObjects(c);
        if keys.Err? { ok := false; return; }
        var moreObjects := AddAll(globalObjects, keys.value);
        var refs := ports.ListAllStorageRefs(c, S3);
        if refs.Err? { ok := false; return; }
        var moreRows := AddAll(globalRows, refs.value);
        CollectedNext(ports.Now(), VERIFIED_CLASSES[..i], objects, rowRefs, globalObjects, globalRows,
                      c, keys.value, refs.value, moreObjects, moreRows);
        assert VERIFIED_CLASSES[..i + 1] == VERIFIED_CLASSES[..i] + [c];
        objects, rowRefs := objects[c := keys.value], rowRefs[c := refs.value];
        globalObjects, globalRows := moreObjects, moreRows;
      }
      assert VERIFIED_CLASSES[..|VERIFIED_CLASSES|] == VERIFIED_CLASSES;
      ok := true;
    }

    /** Cross-checks both classes. A row of a class is set apart as cross-prefix exactly when its key is filed under
        another class, listed or not. */
    method Verify() returns (r: Result<Report, PortError>)
      ensures r.Ok? ==> IsReport(ports.Now(), r.value)
      ensures r.Ok? ==>
                && |r.value.s3| == |r.value.local| == 2
                && r.value.s3[0].c == r.value.local[0].c == Album
                && r.value.s3[1].c == r.value.local[1].c == ChoreProof
      ensures !ports.faulty ==> r.Ok?
    {
      var ok, objects, rowRefs, globalObjects, globalRows := Collect();
      if !ok { return Err(Failed); }
      var report := Report([], []);
      for i := 0 to |VERIFIED_CLASSES|
        invariant |report.s3| == |report.local| == i
        invariant forall j | 0 <= j < i :: IsExact(ports.Now(), VERIFIED_CLASSES[j], report.s3[j], report.local[j])
      {
        var c := VERIFIED_CLASSES[i];
        var f := ClassifyS3(c, rowRefs[c], objects[c], globalObjects, globalRows);
        var l := VerifyLocalClass(c);
        if l.Err? { return Err(l.error); }
        ClassifiedIsExact(ports.Now(), c, objects, rowRefs, globalObjects, globalRows, f, l.value);
        report := Report(report.s3 + [f], report.local + [l.value]);
      }
      r := Ok(report);
    }
  }

  lemma ClassifiedIsExact(w: World, c: PhotoClass, objects: map<PhotoClass, seq<Ref>>,
                          rowRefs: map<PhotoClass, seq<Ref>>,
                          globalObjects: set<Ref>, globalRows: set<Ref>, f: S3Findings, l: LocalFindings)
    requires Collected(w, VERIFIED_CLASSES, objects, rowRefs, globalObjects, globalRows) && c in VERIFIED_CLASSES
    requires f.c == c && l.c == c
    requires forall r :: Occurrences(f.rowsWithoutObject, r) ==
               if r in globalObjects then 0 else Occurrences(rowRefs[c], r)
    requires forall r :: Occurrences(f.crossPrefixRows, r) ==
               if ClassOfKey(r) in {None, Some(c)} then 0 else Occurrences(rowRefs[c], r)
    requires forall k :: Occurrences(f.objectsWithoutRow, k) ==
               if k in globalRows then 0 else Occurrences(objects[c], k)
    requires forall r :: Occurrences(l.missingFiles, r) == if r in w.local then 0 else |Holders(w.Rows(c), Local, r)|
    ensures IsExact(w, c, f, l)
  {
    hide ClassOfKey, Holders, Occurrences;
    forall k
      ensures k in globalRows <==> Referenced(w, k)
    {
      assert Album in VERIFIED_CLASSES && ChoreProof in VERIFIED_CLASSES;
      assert forall d | d in VERIFIED_CLASSES :: d == Album || d == ChoreProof;
    }
    assert forall r :: r in globalObjects <==> IsListed(w, r);
    hide IsListed, Referenced;
  }

  // ---- What the verdict means ----

  /** The row's bytes are not in the store its backend names. */
  predicate BytesGone(w: World, row: Row) {
    match row.backend
    case S3 => row.ref !in w.target
    case Local => row.ref !in w.local
  }

  /** The row's object is there, but its key is outside every listed class. */
  predicate OutsideListing(w: World, row: Row) {
    row.backend.S3? && row.ref in w.target && !IsListed(w, row.ref)
  }

  /** The verdict, exactly: an alarm is raised iff some row's bytes are gone, or some row's object lies under
      a key no listed class owns. */
  lemma AlarmIsExact(w: World, report: Report)
    requires IsReport(w, report)
    ensures Alarms(report) <==> exists c, id ::
              id in w.Rows(c) && (BytesGone(w, w.Rows(c)[id]) || OutsideListing(w, w.Rows(c)[id]))
  {
    if c, id :| id in w.Rows(c) && (BytesGone(w, w.Rows(c)[id]) || OutsideListing(w, w.Rows(c)[id])) {
      RowRaisesAlarm(w, report, c, id);
    }
    if i :| 0 <= i < |report.s3| && report.s3[i].rowsWithoutObject != [] {
      var ref := report.s3[i].rowsWithoutObject[0];
      assert Occurrences(report.s3[i].rowsWithoutObject, ref) > 0;
      assert IsExact(w, VERIFIED_CLASSES[i], report.s3[i], report.local[i]);
      var id :| id in Holders(w.Rows(VERIFIED_CLASSES[i]), S3, ref);
      assert BytesGone(w, w.Rows(VERIFIED_CLASSES[i])[id]) || OutsideListing(w, w.Rows(VERIFIED_CLASSES[i])[id]);
    }
    if i :| 0 <= i < |report.local| && report.local[i].missingFiles != [] {
      var ref := report.local[i].missingFiles[0];
      assert Occurrences(report.local[i].missingFiles, ref) > 0;
      assert IsExact(w, VERIFIED_CLASSES[i], report.s3[i], report.local[i]);
      var id :| id in Holders(w.Rows(VERIFIED_CLASSES[i]), Local, ref);
      assert BytesGone(w, w.Rows(VERIFIED_CLASSES[i])[id]);
    }
  }

  lemma RowRaisesAlarm(w: World, report: Report, c: PhotoClass, id: nat)
    requires IsReport(w, report) && id in w.Rows(c)
    requires BytesGone(w, w.Rows(c)[id]) || OutsideListing(w, w.Rows(c)[id])
    ensures Alarms(report)
  {
    var i := if c == Album then 0 else 1;
    var row := w.Rows(c)[id];
    assert VERIFIED_CLASSES[i] == c && IsExact(w, c, report.s3[i], report.local[i]);
    assert id in Holders(w.Rows(c), row.backend, row.ref);
    if row.backend.S3? {
      assert Occurrences(report.s3[i].rowsWithoutObject, row.ref) > 0;
      assert row.ref in report.s3[i].rowsWithoutObject;
    } else {
      assert Occurrences(report.local[i].missingFiles, row.ref) > 0;
      assert row.ref in report.local[i].missingFiles;
    }
  }

  lemma BareKeyHasNoClass(household: string, file: string)
    requires '/' !in household && household != "households"
    ensures ClassOfKey(household + "/" + file) == None
  {
    SplitAtSlash(household, file, 4);
  }

  /** A bucket row with a key from before the class segment, <household>/<aa>/<hash>.<ext>, raises the data-loss
      alarm although its object is there. */
  lemma LegacyKeyIsFalseAlarm(w: World, report: Report, c: PhotoClass, id: nat, household: string, file: string)
    requires IsReport(w, report) && id in w.Rows(c) && '/' !in household && household != "households"
    requires w.Rows(c)[id].backend.S3? && w.Rows(c)[id].ref == household + "/" + file && w.Rows(c)[id].ref in w.target
    ensures Alarms(report) && !BytesGone(w, w.Rows(c)[id])
  {
    BareKeyHasNoClass(household, file);
    hide ClassOfKey, IsReport, Alarms;
    assert OutsideListing(w, w.Rows(c)[id]);
    AlarmIsExact(w, report);
  }

  /** The class segment of a class's keys. */
  ghost function SegmentText(d: PhotoClass): string {
    match d
    case Album => "photos"
    case ChoreProof => "chore-photos"
    case RewardImage => "reward-images"
    case Unspecified => ""
  }

  /** A row whose object exists under another class's prefix, households/<household>/<segment>/...: it is reported as
      cross-prefix as often as rows of its table carry the ref, its object is nowhere a reaper candidate, and it is
      reported missing exactly when the other class is the one that has keys but is not listed. */
  lemma CrossPrefixRowsAreSetApart(w: World, report: Report, i: nat, id: nat, d: PhotoClass)
    requires IsReport(w, report) && i < |VERIFIED_CLASSES| && id in w.Rows(VERIFIED_CLASSES[i])
    requires d != VERIFIED_CLASSES[i] && d != Unspecified
    requires var row := w.Rows(VERIFIED_CLASSES[i])[id];
             row.backend.S3? && row.ref in w.target && IsFiledUnder(row.ref, SegmentText(d))
    ensures var table := w.Rows(VERIFIED_CLASSES[i]);
            var ref := table[id].ref;
            && multiset(report.s3[i].crossPrefixRows)[ref]
               == |set other | other in table && table[other].backend == S3 && table[other].ref == ref| > 0
            && (forall j | 0 <= j < |report.s3| :: ref !in report.s3[j].objectsWithoutRow)
            && (ref in report.s3[i].rowsWithoutObject <==> d == RewardImage)
  {
    var c, table := VERIFIED_CLASSES[i], w.Rows(VERIFIED_CLASSES[i]);
    var ref := table[id].ref;
    ClassOfKeyIff(ref);
    hide ClassOfKey, IsFiledUnder;
    assert id in Holders(table, S3, ref);
    assert Holders(table, S3, ref)
        == set other | other in table && table[other].backend == S3 && table[other].ref == ref;
    assert IsExact(w, c, report.s3[i], report.local[i]);
    assert multiset(report.s3[i].crossPrefixRows)[ref] == Occurrences(report.s3[i].crossPrefixRows, ref);
    assert ref in report.s3[i].rowsWithoutObject <==> Occurrences(report.s3[i].rowsWithoutObject, ref) > 0;
    forall j | 0 <= j < |report.s3|
      ensures ref !in report.s3[j].objectsWithoutRow
    {
      assert IsExact(w, VERIFIED_CLASSES[j], report.s3[j], report.local[j]);
      assert Occurrences(report.s3[j].objectsWithoutRow, ref) == 0;
    }
  }

  /** In particular a row whose ref is a key of another class. */
  lemma ForeignKeyIsSetApart(w: World, report: Report, i: nat, id: nat, d: PhotoClass, household: Uuid, sum: Digest,
                             ext: string)
    requires IsReport(w, report) && i < |VERIFIED_CLASSES| && id in w.Rows(VERIFIED_CLASSES[i])
    requires d != VERIFIED_CLASSES[i] && d != Unspecified
    requires var row := w.Rows(VERIFIED_CLASSES[i])[id];
             row.backend.S3? && row.ref in w.target && Some(row.ref) == BuildStorageKey(household, d, sum, ext)
    ensures var ref := w.Rows(VERIFIED_CLASSES[i])[id].ref;
            && ref in report.s3[i].crossPrefixRows
            && (forall j | 0 <= j < |report.s3| :: ref !in report.s3[j].objectsWithoutRow)
            && (ref in report.s3[i].rowsWithoutObject <==> d == RewardImage)
  {
    ClassOfBuiltKey(household, d, sum, ext);
    ClassOfKeyIff(w.Rows(VERIFIED_CLASSES[i])[id].ref);
    hide ClassOfKey, IsFiledUnder, IsReport, BuildStorageKey;
    CrossPrefixRowsAreSetApart(w, report, i, id, d);
  }

  // ---- The verdict while a migration runs ----

  /** Migration never makes the verdict worse: whatever failed and wherever it stopped, a row found missing or
      cross-prefix in a state of a run was found so when the run started. */
  lemma VerdictNeverWorse(cfg: Config, run: seq<System>, n: nat, c: PhotoClass, id: nat)
    requires IsRun(cfg, run) && Fresh(run[0]) && n < |run| && id in run[n].w.Rows(c)
    ensures id in run[0].w.Rows(c)
    ensures BytesGone(run[n].w, run[n].w.Rows(c)[id]) ==> BytesGone(run[0].w, run[0].w.Rows(c)[id])
    ensures OutsideListing(run[n].w, run[n].w.Rows(c)[id]) ==>
              OutsideListing(run[0].w, run[0].w.Rows(c)[id]) || BytesGone(run[0].w, run[0].w.Rows(c)[id])
    ensures run[n].w.Rows(c)[id].backend.S3? && ClassOfKey(run[n].w.Rows(c)[id].ref) !in {None, Some(c)} ==>
              run[0].w.Rows(c)[id] == run[n].w.Rows(c)[id]
  {
    RunKeepsInv(cfg, run, n);
    var w0, w := run[0].w, run[n].w;
    assert RowsKept(cfg, w0, w, c);
    var row0, row := w0.Rows(c)[id], w.Rows(c)[id];
    assert RowState(cfg, w0, w, c, row0, row);
    if row != row0 {
      var data := w0.local[row0.ref];
      ClassOfBuiltKey(row0.household, c, cfg.digest(data), ExtensionForContentType(row0.contentType).value);
      assert IsListed(w, row.ref);
    }
  }

  /** A verifier that finds no data loss before a migration finds none in any state of it. */
  lemma NoAlarmStaysNoAlarm(cfg: Config, run: seq<System>, n: nat, before: Report, now: Report)
    requires IsRun(cfg, run) && Fresh(run[0]) && n < |run|
    requires IsReport(run[0].w, before) && IsReport(run[n].w, now) && !Alarms(before)
    ensures !Alarms(now)
  {
    AlarmIsExact(run[0].w, before);
    AlarmIsExact(run[n].w, now);
    var w := run[n].w;
    if c, id :| id in w.Rows(c) && (BytesGone(w, w.Rows(c)[id]) || OutsideListing(w, w.Rows(c)[id])) {
      VerdictNeverWorse(cfg, run, n, c, id);
    }
  }
}
