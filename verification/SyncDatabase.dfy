/** The tables a page write touches, with the constraints the generated schema puts on them. */
module SyncDatabase {
  import opened Integers
  import opened Wrappers
  import opened DocumentIds

  datatype Key = Key(category: string, sourceId: Uuid)

  datatype RegistryRow = RegistryRow(latestSkiptoken: int, deleted: bool, sourceUpdatedAt: int, atomUpdatedAt: int)

  /** A value bound to a column; None is NULL. */
  datatype BindValue =
    | BindUuid(uuid: Option<Uuid>) | BindText(text: Option<string>) | BindBool(flag: Option<bool>)
    | BindI32(i32: Option<int>) | BindI64(i64: Option<int>)
    | BindDateTime(time: Option<int>) | BindDate(date: Option<int>)
  {
    predicate IsNull() {
      match this
      case BindUuid(v) => v.None?
      case BindText(v) => v.None?
      case BindBool(v) => v.None?
      case BindI32(v) => v.None?
      case BindI64(v) => v.None?
      case BindDateTime(v) => v.None?
      case BindDate(v) => v.None?
    }
  }

  datatype EntityRow = EntityRow(latestSkiptoken: int, values: seq<(string, BindValue)>)

  datatype RelationKey = RelationKey(table: string, source: Key, name: string, target: Key, ordinal: int)

  datatype RepeatedKey = RepeatedKey(table: string, source: Key, ordinal: int)

  datatype CategoryState = Running | CaughtUp

  datatype CursorRow = CursorRow(latestSkiptoken: int, nextUrl: Option<string>, state: CategoryState, lastFetchAt: int)

  datatype Db = Db(
    registry: map<Key, RegistryRow>, entities: map<Key, EntityRow>,
    relations: map<RelationKey, int>, repeated: map<RepeatedKey, BindValue>,
    cursors: map<string, CursorRow>)

  datatype DbError = UniqueViolation(table: string) | ForeignKeyViolation(table: string)
    | NotNullViolation(column: string)

  // ----- the registry

  /** Insert, or overwrite an existing row that differs in any column. */
  function UpsertSyncEntity(db: Db, key: Key, row: RegistryRow): Db {
    if key in db.registry && db.registry[key] == row then db
    else db.(registry := db.registry[key := row])
  }

  /** Insert a live row, or raise the token and times of an existing row to the greater ones. */
  function UpsertRelationTarget(db: Db, key: Key, token: int, sourceUpdatedAt: int, atomUpdatedAt: int): Db {
    if key !in db.registry then
      db.(registry := db.registry[key := RegistryRow(token, false, sourceUpdatedAt, atomUpdatedAt)])
    else
      var row := db.registry[key];
      if token > row.latestSkiptoken || sourceUpdatedAt > row.sourceUpdatedAt || atomUpdatedAt > row.atomUpdatedAt then
        db.(registry := db.registry[key := RegistryRow(
          Max(row.latestSkiptoken, token), row.deleted,
          Max(row.sourceUpdatedAt, sourceUpdatedAt), Max(row.atomUpdatedAt, atomUpdatedAt))])
      else db
  }

  // ----- current rows

  function RelationsFrom(relations: map<RelationKey, int>, key: Key): set<RelationKey> {
    set k | k in relations && k.source == key
  }

  function RepeatedFrom(repeated: map<RepeatedKey, BindValue>, key: Key): set<RepeatedKey> {
    set k | k in repeated && k.source == key
  }

  /** Deletes the entity row; its relation and repeated-scalar rows go with it by cascade. */
  function DeleteCurrentRows(db: Db, key: Key): Db {
    if key !in db.entities then db
    else db.(entities := db.entities - {key},
             relations := db.relations - RelationsFrom(db.relations, key),
             repeated := db.repeated - RepeatedFrom(db.repeated, key))
  }

  /** INSERT ... ON CONFLICT DO UPDATE of the entity row, under its foreign key to the registry. */
  function InsertEntityRow(db: Db, key: Key, row: EntityRow): Result<Db, DbError> {
    if key !in db.registry then Err(ForeignKeyViolation(key.category))
    else Ok(db.(entities := db.entities[key := row]))
  }

  /** A row already taken by the primary key, or by the per-name constraint of a single relation. */
  predicate RelationTaken(relations: map<RelationKey, int>, key: RelationKey, single: bool) {
    || key in relations
    || (single && exists k :: k in relations && k.table == key.table && k.source == key.source && k.name == key.name)
  }

  function InsertRelation(db: Db, key: RelationKey, single: bool, sourceUpdatedAt: int): Result<Db, DbError> {
    if RelationTaken(db.relations, key, single) then Err(UniqueViolation(key.table))
    else if key.source !in db.entities || key.target !in db.registry then Err(ForeignKeyViolation(key.table))
    else Ok(db.(relations := db.relations[key := sourceUpdatedAt]))
  }

  function InsertRepeated(db: Db, key: RepeatedKey, value: BindValue): Result<Db, DbError> {
    if key in db.repeated then Err(UniqueViolation(key.table))
    else if key.source !in db.entities then Err(ForeignKeyViolation(key.table))
    else Ok(db.(repeated := db.repeated[key := value]))
  }

  // ----- what every sequence of page writes keeps

  /** An entity row has a live registry row that is no older; a relation row has its source
      entity and its registered target; a repeated-scalar row has its entity. */
  ghost predicate RegistryInvariant(db: Db) {
    && (forall k :: k in db.entities ==>
          k in db.registry && !db.registry[k].deleted &&
            db.registry[k].latestSkiptoken >= db.entities[k].latestSkiptoken)
    && (forall k :: k in db.relations ==> k.source in db.entities && k.target in db.registry)
    && (forall k :: k in db.repeated ==> k.source in db.entities)
  }

  /** A key with no entity row has no relation and no repeated-scalar rows. */
  lemma RowsNeedTheirEntity(db: Db, key: Key)
    requires RegistryInvariant(db) && key !in db.entities
    ensures RelationsFrom(db.relations, key) == {} && RepeatedFrom(db.repeated, key) == {}
  {
    forall k | k in RelationsFrom(db.relations, key) ensures k.source in db.entities {}
    forall k | k in RepeatedFrom(db.repeated, key) ensures k.source in db.entities {}
  }

  /** Nothing current is left under a deleted key. */
  lemma DeletedKeysHaveNoRows(db: Db, key: Key)
    requires RegistryInvariant(db) && key in db.registry && db.registry[key].deleted
    ensures key !in db.entities && RelationsFrom(db.relations, key) == {} && RepeatedFrom(db.repeated, key) == {}
  {
    RowsNeedTheirEntity(db, key);
  }
}
