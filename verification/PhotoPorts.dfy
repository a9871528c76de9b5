/** The ports the migrator and the verifier call: two byte stores and two photo tables. Every call may
    fail when `faulty` holds; a store that is not faulty always answers, exactly. */
module PhotoPorts {
  import opened Prelude
  import opened StorageKeys
  import opened Photos

  datatype PortError = NotFound | Failed

  /** The ids a listing of one backend above a cursor would still return. */
  function Above(table: Table, backend: Backend, after: nat): set<PhotoId> {
    set id | id in table && id > after && table[id].backend == backend
  }

  /** How often a ref occurs in a listing. */
  function Occurrences(refs: seq<Ref>, ref: Ref): (n: nat)
    ensures n > 0 <==> ref in refs
  {
    multiset(refs)[ref]
  }

  lemma OccurrencesSnoc(refs: seq<Ref>, last: Ref)
    ensures forall ref :: Occurrences(refs + [last], ref) == Occurrences(refs, ref) + if ref == last then 1 else 0
  {
  }

  /** The rows of one backend that carry the ref. */
  function Holders(table: Table, backend: Backend, ref: Ref): set<PhotoId> {
    set id | id in table && table[id].backend == backend && table[id].ref == ref
  }

  /** Each ref is listed as often as rows of the backend carry it. */
  ghost predicate ListsRefs(table: Table, backend: Backend, refs: seq<Ref>) {
    forall ref :: multiset(refs)[ref] == |set id | id in table && table[id].backend == backend && table[id].ref == ref|
  }

  lemma RefsAreListed(table: Table, backend: Backend, refs: seq<Ref>)
    requires forall ref :: Occurrences(refs, ref) == |Holders(table, backend, ref)|
    ensures ListsRefs(table, backend, refs)
  {
    forall ref: Ref
      ensures multiset(refs)[ref] == |set id | id in table && table[id].backend == backend && table[id].ref == ref|
    {
      assert Occurrences(refs, ref) == |Holders(table, backend, ref)|;
      assert Holders(table, backend, ref)
          == set id | id in table && table[id].backend == backend && table[id].ref == ref;
    }
  }

  lemma AllHolders(table: Table, backend: Backend)
    ensures forall ref :: Holders(table, backend, ref) * Above(table, backend, 0) == Holders(table, backend, ref)
  {
  }

  lemma OneHolderLess(table: Table, backend: Backend, left: set<PhotoId>, id: PhotoId)
    requires id in left && id in table && table[id].backend == backend
    ensures forall ref :: |Holders(table, backend, ref) * left|
                       == |Holders(table, backend, ref) * (left - {id})| + if table[id].ref == ref then 1 else 0
  {
    forall ref
      ensures |Holders(table, backend, ref) * left|
           == |Holders(table, backend, ref) * (left - {id})| + if table[id].ref == ref then 1 else 0
    {
      assert Holders(table, backend, ref) * (left - {id}) == Holders(table, backend, ref) * left - {id};
    }
  }

  predicate IsNext(table: Table, backend: Backend, after: nat, id: nat) {
    id in Above(table, backend, after) && forall other | other in Above(table, backend, after) :: id <= other
  }

  /** The cursor before element i of a page that started after `after`. */
  function CursorAt(rows: seq<(nat, Row)>, after: nat, i: nat): nat
    requires i <= |rows|
  {
    if i == 0 then after else rows[i - 1].0
  }

  /** Row i is the next one above the row before it. */
  ghost predicate Follows(table: Table, backend: Backend, after: nat, rows: seq<(nat, Row)>, i: nat)
    requires i < |rows|
  {
    IsNext(table, backend, CursorAt(rows, after, i), rows[i].0) && table[rows[i].0] == rows[i].1
  }

  ghost predicate IsAscending(table: Table, backend: Backend, after: nat, rows: seq<(nat, Row)>) {
    forall i | 0 <= i < |rows| :: Follows(table, backend, after, rows, i)
  }

  /** A keyset page: the rows of the backend with the lowest ids above the cursor, ascending, at most `limit`
      of them, and fewer only when none is left. */
  ghost predicate IsPage(table: Table, backend: Backend, after: nat, limit: nat, rows: seq<(nat, Row)>) {
    && |rows| <= limit && IsAscending(table, backend, after, rows)
    && (|rows| < limit ==> Above(table, backend, CursorAt(rows, after, |rows|)) == {})
  }

  /** The same, spelled out: rows of the backend above the cursor with their columns, in ascending order; every such
      row up to the last one listed is listed, and every one at all when the page is not full. */
  ghost predicate ListsFrom(table: Table, backend: Backend, after: nat, limit: nat, rows: seq<(nat, Row)>) {
    && |rows| <= limit
    && (forall i | 0 <= i < |rows| ::
          && rows[i].0 > after && rows[i].0 in table && table[rows[i].0] == rows[i].1 && rows[i].1.backend == backend)
    && (forall i, j | 0 <= i < j < |rows| :: rows[i].0 < rows[j].0)
    && (forall id | id in table && id > after && table[id].backend == backend ::
          (|rows| < limit || (|rows| > 0 && id <= rows[|rows| - 1].0)) ==>
            exists i :: 0 <= i < |rows| && rows[i].0 == id)
  }

  lemma NextIs(table: Table, backend: Backend, after: nat, id: nat)
    requires IsNext(table, backend, after, id)
    ensures id > after && id in table && table[id].backend == backend
    ensures forall other | other in table && after < other < id :: table[other].backend != backend
  {
    forall other | other in table && after < other < id
      ensures table[other].backend != backend
    {
      assert other !in Above(table, backend, after);
    }
  }

  /** Every row of the backend between the cursors is one of the first n listed. */
  ghost predicate ListsUpTo(table: Table, backend: Backend, after: nat, rows: seq<(nat, Row)>, n: nat)
    requires n <= |rows|
  {
    && (forall i | 0 <= i < n ::
          && after < rows[i].0 <= CursorAt(rows, after, n) && rows[i].0 in table
          && table[rows[i].0] == rows[i].1 && rows[i].1.backend == backend)
    && (forall i, j | 0 <= i < j < n :: rows[i].0 < rows[j].0)
    && (forall id | id in table && after < id <= CursorAt(rows, after, n) && table[id].backend == backend ::
          exists i :: 0 <= i < n && rows[i].0 == id)
  }

  lemma OneMoreListed(table: Table, backend: Backend, after: nat, rows: seq<(nat, Row)>, n: nat)
    requires 0 < n <= |rows| && ListsUpTo(table, backend, after, rows, n - 1)
    requires after <= CursorAt(rows, after, n - 1) < rows[n - 1].0 && rows[n - 1].0 in table
    requires table[rows[n - 1].0] == rows[n - 1].1 && rows[n - 1].1.backend == backend
    requires forall other | other in table && CursorAt(rows, after, n - 1) < other < rows[n - 1].0 ::
               table[other].backend != backend
    ensures ListsUpTo(table, backend, after, rows, n)
  {
    forall id | id in table && after < id <= CursorAt(rows, after, n) && table[id].backend == backend
      ensures exists i :: 0 <= i < n && rows[i].0 == id
    {
      if id > CursorAt(rows, after, n - 1) { assert rows[n - 1].0 == id; }
    }
  }

  lemma {:induction false} PrefixLists(table: Table, backend: Backend, after: nat, rows: seq<(nat, Row)>, n: nat)
    requires IsAscending(table, backend, after, rows) && n <= |rows|
    ensures ListsUpTo(table, backend, after, rows, n)
  {
    if n > 0 {
      hide IsNext, ListsUpTo;
      PrefixLists(table, backend, after, rows, n - 1);
      CursorsAscend(table, backend, after, rows, n - 1);
      assert Follows(table, backend, after, rows, n - 1);
      NextIs(table, backend, CursorAt(rows, after, n - 1), rows[n - 1].0);
      OneMoreListed(table, backend, after, rows, n);
    }
  }

  lemma PageLists(table: Table, backend: Backend, after: nat, limit: nat, rows: seq<(nat, Row)>)
    requires IsPage(table, backend, after, limit, rows)
    ensures ListsFrom(table, backend, after, limit, rows)
  {
    PrefixLists(table, backend, after, rows, |rows|);
    forall id | id in table && id > after && table[id].backend == backend && |rows| < limit
      ensures exists i :: 0 <= i < |rows| && rows[i].0 == id
    {
      assert id !in Above(table, backend, CursorAt(rows, after, |rows|));
    }
  }

  lemma PageGrows(table: Table, backend: Backend, after: nat, rows: seq<(nat, Row)>, id: nat)
    requires IsAscending(table, backend, after, rows)
    requires IsNext(table, backend, CursorAt(rows, after, |rows|), id)
    ensures IsAscending(table, backend, after, rows + [(id, table[id])])
  {
    var longer := rows + [(id, table[id])];
    forall i | 0 <= i < |longer|
      ensures Follows(table, backend, after, longer, i)
    {
      assert CursorAt(longer, after, i) == CursorAt(rows, after, i);
      assert i < |rows| ==> longer[i] == rows[i] && Follows(table, backend, after, rows, i);
    }
  }

  /** The rows of a page lie above its cursor. */
  lemma {:induction false} CursorsAscend(table: Table, backend: Backend, after: nat, rows: seq<(nat, Row)>, i: nat)
    requires IsAscending(table, backend, after, rows) && i <= |rows|
    ensures CursorAt(rows, after, i) >= after
  {
    if i > 0 {
      CursorsAscend(table, backend, after, rows, i - 1);
      assert Follows(table, backend, after, rows, i - 1);
    }
  }

  /** Tables that agree above the cursor have the same pages from there on. */
  lemma SamePages(t1: Table, t2: Table, backend: Backend, after: nat, limit: nat, rows: seq<(nat, Row)>)
    requires t1.Keys == t2.Keys && forall id | id in t1 && id > after :: t1[id] == t2[id]
    requires IsPage(t1, backend, after, limit, rows)
    ensures IsPage(t2, backend, after, limit, rows)
  {
    forall i | 0 <= i <= |rows|
      ensures Above(t1, backend, CursorAt(rows, after, i)) == Above(t2, backend, CursorAt(rows, after, i))
    {
      CursorsAscend(t1, backend, after, rows, i);
    }
    forall i | 0 <= i < |rows|
      ensures Follows(t2, backend, after, rows, i)
    {
      CursorsAscend(t1, backend, after, rows, i);
      assert Follows(t1, backend, after, rows, i);
    }
  }

  lemma {:induction false} LeastExists(ids: set<PhotoId>) returns (least: PhotoId)
    requires ids != {}
    ensures least in ids && forall other | other in ids :: least <= other
  {
    var id :| id in ids;
    var rest := ids - {id};
    if rest == {} {
      least := id;
      assert forall other | other in ids :: other == id || other in rest;
    } else {
      var lower := LeastExists(rest);
      least := if id < lower then id else lower;
      assert forall other | other in ids :: other == id || other in rest;
    }
  }

  class Stores {
    const cfg: Config
    const faulty: bool
    var local: map<Ref, Bytes>
    var target: map<Ref, Bytes>
    var album: Table
    var chore: Table

    constructor (cfg: Config, faulty: bool, w: World)
      ensures this.cfg == cfg && this.faulty == faulty && Now() == w
    {
      this.cfg, this.faulty := cfg, faulty;
      local, target, album, chore := w.local, w.target, w.album, w.chore;
    }

    function Now(): World
      reads this
    {
      World(local, target, album, chore)
    }

    /** Whether this call fails. */
    method Fails() returns (fails: bool)
      ensures fails ==> faulty
    {
      var chance: bool := *;
      fails := faulty && chance;
    }

    method OpenLocal(ref: Ref) returns (r: Result<Bytes, PortError>)
      ensures r.Ok? ==> ref in local && r.value == local[ref]
      ensures r == Err(NotFound) ==> ref !in local
      ensures !faulty ==> (r.Ok? <==> ref in local) && (r.Err? ==> r.error == NotFound)
    {
      var fails := Fails();
      if fails { return Err(Failed); }
      r := if ref in local then Ok(local[ref]) else Err(NotFound);
    }

    /** Reads an opened file through a reader limited to max + 1 bytes. */
    method Read(data: Bytes, max: nat) returns (r: Result<Bytes, PortError>)
      ensures r.Ok? ==> r.value == ReadCapped(data, max)
      ensures !faulty ==> r.Ok?
    {
      var fails := Fails();
      r := if fails then Err(Failed) else Ok(ReadCapped(data, max));
    }

    /** S3PhotoStore.Open buffers the object, refusing one over the cap. */
    method OpenTarget(ref: Ref) returns (r: Result<Bytes, PortError>)
      ensures r.Ok? ==> ref in target && r.value == target[ref] && |target[ref]| <= cfg.maxUploadBytes
      ensures !faulty ==> (r.Ok? <==> ref in target && |target[ref]| <= cfg.maxUploadBytes)
    {
      var fails := Fails();
      if fails { return Err(Failed); }
      if ref !in target { return Err(NotFound); }
      r := if |ReadCapped(target[ref], cfg.maxUploadBytes)| > cfg.maxUploadBytes then Err(Failed) else Ok(target[ref]);
    }

    method ObjectExists(ref: Ref) returns (r: Result<bool, PortError>)
      ensures r.Ok? ==> r.value == (ref in target)
      ensures !faulty ==> r.Ok?
    {
      var fails := Fails();
      r := if fails then Err(Failed) else Ok(ref in target);
    }

    /** A faulty upload may store anything, and may do so with or without reporting an error. */
    method PutAt(ref: Ref, data: Bytes) returns (ok: bool, ghost stored: Option<Bytes>)
      modifies this`target
      ensures target == if stored.None? then old(target) else old(target)[ref := stored.value]
      ensures ok ==> stored.Some?
      ensures !faulty ==> ok && stored == Some(data)
    {
      var fails := Fails();
      var silent := Fails();
      if !fails && !silent {
        target := target[ref := data];
        return true, Some(data);
      }
      var leaves: bool := *;
      if fails && !leaves {
        return false, None;
      }
      var garbage: Bytes := *;
      target := target[ref := garbage];
      return !fails, Some(garbage);
    }

    method DeleteLocal(ref: Ref) returns (ok: bool)
      modifies this`local
      ensures local == if ok then old(local) - {ref} else old(local)
      ensures !faulty ==> ok
    {
      var fails := Fails();
      if !fails { local := local - {ref}; }
      ok := !fails;
    }

    method ListByBackend(c: PhotoClass, backend: Backend, after: nat, limit: nat)
      returns (r: Result<seq<(nat, Row)>, PortError>)
      ensures r.Ok? ==> IsPage(Now().Rows(c), backend, after, limit, r.value)
      ensures r.Ok? ==> ListsFrom(Now().Rows(c), backend, after, limit, r.value)
      ensures !faulty ==> r.Ok?
    {
      var fails := Fails();
      if fails { return Err(Failed); }
      var table := Now().Rows(c);
      var rows: seq<(nat, Row)> := [];
      var cursor := after;
      while |rows| < limit && Above(table, backend, cursor) != {}
        invariant |rows| <= limit && cursor == CursorAt(rows, after, |rows|)
        invariant IsAscending(table, backend, after, rows)
        decreases limit - |rows|
      {
        ghost var least := LeastExists(Above(table, backend, cursor));
        assert IsNext(table, backend, cursor, least);
        var id :| id in Above(table, backend, cursor) && IsNext(table, backend, cursor, id);
        PageGrows(table, backend, after, rows, id);
        rows, cursor := rows + [(id, table[id])], id;
      }
      PageLists(table, backend, after, limit, rows);
      r := Ok(rows);
    }

    /** The refs of every row of the backend, one per row, in no particular order. */
    method ListAllStorageRefs(c: PhotoClass, backend: Backend) returns (r: Result<seq<Ref>, PortError>)
      ensures r.Ok? ==> |r.value| == |Above(Now().Rows(c), backend, 0)|
      ensures r.Ok? ==> forall ref :: Occurrences(r.value, ref) == |Holders(Now().Rows(c), backend, ref)|
      ensures r.Ok? ==> ListsRefs(Now().Rows(c), backend, r.value)
      ensures !faulty ==> r.Ok?
    {
      var fails := Fails();
      if fails { return Err(Failed); }
      var table := Now().Rows(c);
      var left, refs := Above(table, backend, 0), [];
      AllHolders(table, backend);
      while left != {}
        invariant left <= Above(table, backend, 0) && |refs| + |left| == |Above(table, backend, 0)|
        invariant forall ref :: Occurrences(refs, ref) + |Holders(table, backend, ref) * left| ==
                    |Holders(table, backend, ref)|
        decreases left
      {
        var id :| id in left;
        OneHolderLess(table, backend, left, id);
        OccurrencesSnoc(refs, table[id].ref);
        left, refs := left - {id}, refs + [table[id].ref];
      }
      forall ref
        ensures Occurrences(refs, ref) == |Holders(table, backend, ref)|
      {
        assert Holders(table, backend, ref) * left == {};
      }
      RefsAreListed(table, backend, refs);
      r := Ok(refs);
    }

    /** The keys of the class, each once: the whole listing, filtered by the class segment of the key. */
    method ListObjects(c: PhotoClass) returns (r: Result<seq<Ref>, PortError>)
      ensures r.Ok? ==> forall k :: Occurrences(r.value, k) == if k in target && ClassOfKey(k) == Some(c) then 1 else 0
      ensures !faulty && c != Unspecified ==> r.Ok?
    {
      var fails := Fails();
      var prefix := ClassKeyPrefix(c);
      if fails || prefix.None? { return Err(Failed); }
      var left, keys := target.Keys, [];
      while left != {}
        invariant left <= target.Keys
        invariant forall k :: Occurrences(keys, k) ==
                    if k in target && k !in left && ClassOfKey(k) == Some(c) then 1 else 0
        decreases left
      {
        var key :| key in left;
        ListingAgreesWithClass(key, c);
        left := left - {key};
        OccurrencesSnoc(keys, key);
        if KeyBelongsToClass(key, prefix.value) { keys := keys + [key]; }
      }
      r := Ok(keys);
    }

    method ExistsByStorageRef(c: PhotoClass, ref: Ref) returns (r: Result<bool, PortError>)
      ensures r.Ok? ==> (r.value <==> References(Now().Rows(c), ref))
      ensures !faulty ==> r.Ok?
    {
      var fails := Fails();
      if fails { return Err(Failed); }
      var table := Now().Rows(c);
      r := Ok(exists id :: id in table && table[id].backend.Local? && table[id].ref == ref);
    }

    /** UPDATE ... WHERE id = $1 AND storage_backend = 'local'. The unique index of the album table can
        refuse it, and a faulty call may fail after having been applied. */
    method MigrateStorageBackend(c: PhotoClass, id: nat, key: Ref, h: Digest)
      returns (r: Result<bool, PortError>, ghost applied: bool)
      modifies this`album, this`chore
      ensures applied ==> id in old(Now()).Rows(c) && old(Now()).Rows(c)[id].backend.Local?
                          && !HashTaken(old(Now()), c, id, old(Now()).Rows(c)[id], h)
                          && Now() == old(Now()).SetRow(c, id, Flipped(c, old(Now()).Rows(c)[id], key, h))
      ensures applied ==>
                var before, now := old(Now()).Rows(c)[id], Now().Rows(c)[id];
                && now.ref == key && now.backend == S3
                && now.household == before.household && now.contentType == before.contentType
                && now.hash == if before.hash == None && c == Album then Some(h) else before.hash
      ensures local == old(local) && target == old(target)
      ensures forall d: PhotoClass, other | other in old(Now()).Rows(d) && (d != c || other != id) ::
                other in Now().Rows(d) && Now().Rows(d)[other] == old(Now()).Rows(d)[other]
      ensures !applied ==> Now() == old(Now())
      ensures r.Ok? ==> r.value == applied && (!applied ==> !(id in Now().Rows(c) && Now().Rows(c)[id].backend.Local?))
      ensures !faulty && r.Err? ==> id in Now().Rows(c) && Now().Rows(c)[id].backend.Local? && !applied
                                    && HashTaken(Now(), c, id, Now().Rows(c)[id], h)
    {
      applied := false;
      var fails := Fails();
      var table := Now().Rows(c);
      if fails {
        var lost: bool := *;
        if lost { return Err(Failed), false; }
      }
      if id !in table || !table[id].backend.Local? {
        return if fails then Err(Failed) else Ok(false), false;
      }
      if c.Album? && table[id].hash.None?
         && exists other ::
           other in album && other != id && album[other].household == table[id].household &&
             album[other].hash == Some(h) {
        return Err(Failed), false;
      }
      var row := Flipped(c, table[id], key, h);
      if c.Album? { album := album[id := row]; }
      if c.ChoreProof? { chore := chore[id := row]; }
      return if fails then Err(Failed) else Ok(true), true;
    }
  }
}
