/** The four stores a photo migration works on: local files, target objects, and the two photo tables. */
module Photos {
  import opened Prelude
  import opened StorageKeys

  datatype Backend = Local | S3

  /** One photo or task_instance_photo row; its id is the key it has in its table. */
  datatype Row = Row(household: Uuid, ref: Ref, backend: Backend, contentType: string, hash: Option<Digest>)

  /** Row ids in their index order; the zero id is the cursor before the first row, never a row. */
  type PhotoId = n: nat | n > 0 witness 1

  type Table = map<PhotoId, Row>

  /** `digest` stands for sha256 in hex: nothing about it is assumed, collisions included. */
  datatype Config = Config(digest: Bytes -> Digest, maxUploadBytes: nat)

  datatype World = World(local: map<Ref, Bytes>, target: map<Ref, Bytes>, album: Table, chore: Table)
  {
    function Rows(c: PhotoClass): Table {
      match c
      case Album => album
      case ChoreProof => chore
      case _ => map[]
    }

    function SetRow(c: PhotoClass, id: PhotoId, row: Row): World {
      match c
      case Album => this.(album := album[id := row])
      case ChoreProof => this.(chore := chore[id := row])
      case _ => this
    }
  }

  /** What a reader limited to max + 1 bytes delivers. */
  function ReadCapped(data: Bytes, max: nat): (read: Bytes)
    ensures |read| <= max ==> read == data
    ensures |read| <= max <==> |data| <= max
  {
    if |data| <= max + 1 then data else data[..max + 1]
  }

  /** The size, type and recorded-hash checks a local file passes before anything is uploaded. */
  predicate Acceptable(cfg: Config, row: Row, data: Bytes) {
    && ExtensionForContentType(row.contentType).Some?
    && |data| <= cfg.maxUploadBytes
    && (row.hash.None? || row.hash.value == cfg.digest(data))
  }

  /** The canonical key of a row's bytes. */
  function KeyOf(cfg: Config, c: PhotoClass, row: Row, data: Bytes): Ref
    requires c != Unspecified && ExtensionForContentType(row.contentType).Some?
  {
    BuildStorageKey(row.household, c, cfg.digest(data), ExtensionForContentType(row.contentType).value).value
  }

  /** The target can be read back at `key` within the size cap, with digest h. */
  predicate Intact(cfg: Config, target: map<Ref, Bytes>, key: Ref, h: Digest) {
    key in target && |target[key]| <= cfg.maxUploadBytes && cfg.digest(target[key]) == h
  }

  /** Some local-backend row of the table still references ref. */
  ghost predicate References(table: Table, ref: Ref) {
    exists id :: id in table && table[id].backend.Local? && table[id].ref == ref
  }

  lemma LocalRowReferences(table: Table, id: nat)
    requires id in table && table[id].backend.Local?
    ensures References(table, table[id].ref)
  {
  }

  /** A row after MigrateStorageBackend: only the album table fills in a missing content hash. */
  function Flipped(c: PhotoClass, row: Row, key: Ref, h: Digest): Row {
    row.(ref := key, backend := S3, hash := if c.Album? && row.hash.None? then Some(h) else row.hash)
  }

  /** The unique index on (household, content hash) of the album table refuses the hash a flip would
      fill in, because another row of the household already carries it. */
  ghost predicate HashTaken(w: World, c: PhotoClass, id: nat, row: Row, h: Digest) {
    c.Album? && row.hash.None? &&
    exists other ::
      other in w.album && other != id && w.album[other].household == row.household && w.album[other].hash == Some(h)
  }

  /** The bytes a row's own backend serves for it, if any. An object over the cap is not readable. */
  function Copy(cfg: Config, w: World, row: Row): Option<Bytes> {
    match row.backend
    case Local => if row.ref in w.local then Some(w.local[row.ref]) else None
    case S3 =>
      if row.ref in w.target && |w.target[row.ref]| <= cfg.maxUploadBytes then Some(w.target[row.ref]) else None
  }

  /** Keys of two rows meet only for equal digests. */
  lemma EqualKeysEqualDigests(cfg: Config, c1: PhotoClass, row1: Row, data1: Bytes, c2: PhotoClass, row2: Row,
                              data2: Bytes)
    requires c1 != Unspecified && ExtensionForContentType(row1.contentType).Some?
    requires c2 != Unspecified && ExtensionForContentType(row2.contentType).Some?
    requires KeyOf(cfg, c1, row1, data1) == KeyOf(cfg, c2, row2, data2)
    ensures c1 == c2 && row1.household == row2.household && cfg.digest(data1) == cfg.digest(data2)
  {
    BuiltKeysAreInjective(row1.household, c1, cfg.digest(data1), ExtensionForContentType(row1.contentType).value,
                          row2.household, c2, cfg.digest(data2), ExtensionForContentType(row2.contentType).value);
  }
}
