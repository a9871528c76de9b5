/** What migration does to a single row, spelled out column by column: which rows change, to what, and what is
    reported of the others. */
module MigrationRows {
  import opened Prelude
  import opened StorageKeys
  import opened Photos
  import opened MigrationProtocol
  import opened MigrationSafety
  import opened MigrationOutcome

  // ---- The checks and the key, spelled out ----

  /** Where a photo of a household belongs: the text of its key. */
  ghost function KeyText(c: PhotoClass, household: Uuid, contentType: string, h: Digest): string {
    "households/" + household + (if c == Album then "/photos/" else "/chore-photos/") + h[..2] + "/" + h
    + if contentType == "image/jpeg" then ".jpg" else if contentType == "image/png" then ".png" else ".webp"
  }

  ghost predicate IsImageType(contentType: string) {
    contentType == "image/jpeg" || contentType == "image/png" || contentType == "image/webp"
  }

  lemma TypesAreImages(contentType: string)
    ensures ExtensionForContentType(contentType).Some? <==> IsImageType(contentType)
  {
  }

  lemma KeyIsSpelled(cfg: Config, c: PhotoClass, row: Row, data: Bytes)
    requires (c == Album || c == ChoreProof) && IsImageType(row.contentType)
    ensures KeyOf(cfg, c, row, data) == KeyText(c, row.household, row.contentType, cfg.digest(data))
  {
    var h, ext := cfg.digest(data), ExtensionForContentType(row.contentType).value;
    var prefix := ClassKeyPrefix(c).value;
    Assembled(row.household, prefix, h[..2], h, ext);
    assert (if c == Album then "/photos/" else "/chore-photos/") == "/" + prefix + "/";
    assert "." + ext == if row.contentType == "image/jpeg" then ".jpg"
                        else if row.contentType == "image/png" then ".png" else ".webp";
  }

  lemma Assembled(household: string, prefix: string, shard: string, h: string, ext: string)
    ensures "households" + "/" + (household + "/" + (prefix + "/" + (shard + "/" + (h + "." + ext))))
         == "households/" + household + ("/" + prefix + "/") + shard + "/" + h + ("." + ext)
  {
    assert "households" + "/" == "households/";
  }

  /** A local row that passes every check: its file is there, no longer than the cap, of an image type and with the
      recorded hash, and at its key there is nothing or an object of the same digest within the cap. */
  ghost predicate PassesChecks(cfg: Config, w: World, c: PhotoClass, row: Row) {
    && row.backend == Local && row.ref in w.local && IsImageType(row.contentType)
    && |w.local[row.ref]| <= cfg.maxUploadBytes
    && (row.hash == None || row.hash == Some(cfg.digest(w.local[row.ref])))
    && var h := cfg.digest(w.local[row.ref]);
       var key := KeyText(c, row.household, row.contentType, h);
    (key in w.target ==> |w.target[key]| <= cfg.maxUploadBytes && cfg.digest(w.target[key]) == h)
  }

  lemma GoodPassesChecks(cfg: Config, w: World, c: PhotoClass, row: Row)
    requires c == Album || c == ChoreProof
    ensures Good(cfg, w, c, row) <==> PassesChecks(cfg, w, c, row)
  {
    TypesAreImages(row.contentType);
    if row.ref in w.local && IsImageType(row.contentType) { KeyIsSpelled(cfg, c, row, w.local[row.ref]); }
    hide KeyText, KeyOf, IsImageType, ExtensionForContentType;
  }

  // ---- Every run ----

  /** A row moved: it was local with a readable file of an image type, within the cap and with the recorded hash, and
      an object with the digest of that file is where the row now points. Nothing but its ref and its backend
      changed, except that an album row without a hash got the digest of its file. */
  ghost predicate HasMoved(cfg: Config, w0: World, w: World, c: PhotoClass, row0: Row, row: Row) {
    && row0.backend == Local && row0.ref in w0.local && row.backend == S3
    && var data := w0.local[row0.ref];
       var h := cfg.digest(data);
    && IsImageType(row0.contentType) && |data| <= cfg.maxUploadBytes && (row0.hash == None || row0.hash == Some(h))
    && row.household == row0.household && row.contentType == row0.contentType
    && row.hash == (if c == Album then Some(h) else row0.hash)
    && row.ref == KeyText(c, row0.household, row0.contentType, h)
    && row.ref in w.target && |w.target[row.ref]| <= cfg.maxUploadBytes && cfg.digest(w.target[row.ref]) == h
  }

  lemma RowStateIsSpelled(cfg: Config, w0: World, w: World, c: PhotoClass, row0: Row, row: Row)
    requires (c == Album || c == ChoreProof) && RowState(cfg, w0, w, c, row0, row) && row != row0
    ensures HasMoved(cfg, w0, w, c, row0, row)
  {
    TypesAreImages(row0.contentType);
    KeyIsSpelled(cfg, c, row0, w0.local[row0.ref]);
    hide KeyText, KeyOf, IsImageType, ExtensionForContentType;
  }

  /** In every state of every run, whatever fails and however many processes take part, a row is as it was when the
      run started or it has moved; no row is added or removed. */
  lemma RowsStayOrMove(cfg: Config, run: seq<System>, n: nat, c: PhotoClass, id: nat)
    requires IsRun(cfg, run) && Fresh(run[0]) && n < |run|
    ensures id in run[n].w.Rows(c) <==> id in run[0].w.Rows(c)
    ensures id in run[0].w.Rows(c) ==>
              var row0, row := run[0].w.Rows(c)[id], run[n].w.Rows(c)[id];
              row == row0 || HasMoved(cfg, run[0].w, run[n].w, c, row0, row)
  {
    RunKeepsInv(cfg, run, n);
    var w0, w := run[0].w, run[n].w;
    assert RowsKept(cfg, w0, w, c);
    if id in w0.Rows(c) {
      assert RowState(cfg, w0, w, c, w0.Rows(c)[id], w.Rows(c)[id]);
      hide RowState, HasMoved;
      if w.Rows(c)[id] != w0.Rows(c)[id] { RowStateIsSpelled(cfg, w0, w, c, w0.Rows(c)[id], w.Rows(c)[id]); }
    }
  }

  // ---- Fault-free runs ----

  /** The unique index keeps an album row without a hash out: another row of its household carries the digest of its
      file, or is a row without a hash, too, that passes every check with the same digest and has a lower id. */
  ghost predicate IsKeptOut(cfg: Config, w: World, id: nat)
    requires id in w.album && w.album[id].ref in w.local
  {
    var h := cfg.digest(w.local[w.album[id].ref]);
    && w.album[id].hash == None
    && exists other ::
         && other in w.album && other != id && w.album[other].household == w.album[id].household
         && (w.album[other].hash == Some(h)
             || (other < id && w.album[other].hash == None && PassesChecks(cfg, w, Album, w.album[other])
                 && cfg.digest(w.local[w.album[other].ref]) == h))
  }

  lemma OutrankedIsKeptOut(cfg: Config, w: World, id: nat)
    requires id in w.album && w.album[id].ref in w.local
    ensures Outranked(cfg, w, Album, id) <==> IsKeptOut(cfg, w, id)
  {
    var h := cfg.digest(w.local[w.album[id].ref]);
    forall other | other in w.album
      ensures Claims(cfg, w, other, id, h) <==>
                && other != id && w.album[other].household == w.album[id].household
                && (w.album[other].hash == Some(h)
                    || (other < id && w.album[other].hash == None && PassesChecks(cfg, w, Album, w.album[other])
                        && cfg.digest(w.local[w.album[other].ref]) == h))
    {
      hide Good, PassesChecks;
      GoodPassesChecks(cfg, w, Album, w.album[other]);
    }
    hide Claims, PassesChecks;
  }

  /** A completed fault-free run moves exactly the local rows of its classes that pass every check and that the
      unique index does not keep out. */
  lemma CompletedRunMovesIff(cfg: Config, cs: set<PhotoClass>, w0: World, w: World, c: PhotoClass, id: nat)
    requires Completes(cfg, cs, w0, w) && id in w0.Rows(c) && w0.Rows(c)[id].backend == Local
    ensures id in w.Rows(c)
    ensures w.Rows(c)[id].backend == S3 <==>
              && c in cs && PassesChecks(cfg, w0, c, w0.Rows(c)[id]) && (c == Album ==> !IsKeptOut(cfg, w0, id))
  {
    CompletedIsClosedForm(cfg, cs, w0, w);
    GoodPassesChecks(cfg, w0, c, w0.Rows(c)[id]);
    if c == Album && w0.album[id].ref in w0.local { OutrankedIsKeptOut(cfg, w0, id); }
    assert w.Rows(c)[id] == FutureRow(cfg, cs, w0, c, id);
    hide Completes, Good, Outranked, IsKeptOut, KeyText, KeyOf;
  }

  /** What is reported of a local row, spelled out: an error for a file that is missing, of another type or too
      long, or that the unique index keeps out; a hash mismatch for bytes that are not those recorded; an integrity
      failure for a wrong object at the row's key. */
  lemma VerdictIsSpelled(cfg: Config, w: World, c: PhotoClass, id: nat)
    requires id in w.Rows(c) && w.Rows(c)[id].backend == Local
    ensures var row, verdict := w.Rows(c)[id], VerdictOf(cfg, w, c, id);
            var readable := row.ref in w.local && IsImageType(row.contentType)
                            && |w.local[row.ref]| <= cfg.maxUploadBytes;
            && (verdict == Migrated <==> PassesChecks(cfg, w, c, row) && (c == Album ==> !IsKeptOut(cfg, w, id)))
            && (verdict == HashMismatch <==>
                  readable && row.hash != None && row.hash != Some(cfg.digest(w.local[row.ref])))
            && (verdict == TargetIntegrityFailed <==>
                  readable && (row.hash == None || row.hash == Some(cfg.digest(w.local[row.ref])))
                  && !PassesChecks(cfg, w, c, row))
            && (verdict == Error <==>
                  !readable || (PassesChecks(cfg, w, c, row) && c == Album && IsKeptOut(cfg, w, id)))
  {
    var row := w.Rows(c)[id];
    TypesAreImages(row.contentType);
    GoodPassesChecks(cfg, w, c, row);
    if c == Album && row.ref in w.local { OutrankedIsKeptOut(cfg, w, id); }
    assert PassesChecks(cfg, w, c, row) ==> row.ref in w.local && IsImageType(row.contentType);
    hide Good, Outranked, IsKeptOut, KeyText, KeyOf, IsImageType, ExtensionForContentType;
  }
}
