/** The `resources` table and the contract of the five store operations on it.

    The table is a map from keys to rows.  Every operation is one transaction on the single
    connection, so each is a function from a table to a table and an answer. */
module Table {
  import opened Bytes
  import opened Api

  datatype Key = Key(tenant: Str, kind: Str, project: Str, name: Str)

  /** One row: the indexed columns and the body. */
  datatype Row = Row(
    key: Key,
    uid: string,
    rv: nat,
    generation: int,
    labels: Labels,
    createdAt: Time,
    data: Resource)

  /** What callers exchange with the store.  The version is decimal text; a creation time that is
      not set is the zero time. */
  datatype Record = Record(
    key: Key,
    uid: string,
    resourceVersion: string,
    generation: int,
    labels: Labels,
    createdAt: Option<Time>,
    data: Resource)

  type Rows = map<Key, Row>

  datatype StoreError = ErrNotFound | ErrAlreadyExists | ErrConflict | ErrInsert | ErrToken

  type Answer = Result<Record, StoreError>

  const INITIAL_VERSION: nat := 1

  function ToRecord(row: Row): Record {
    Record(row.key, row.uid, Decimal(row.rv), row.generation, row.labels, Some(row.createdAt), row.data)
  }

  /** The foreign key on tenants and the UNIQUE column uid, checked by the INSERT statement. */
  predicate InsertAllowed(t: Rows, tenants: set<Str>, key: Key, uid: string) {
    key.tenant in tenants && forall k :: k in t ==> t[k].uid != uid
  }

  function NewRow(rec: Record, uid: string, now: Time): Row {
    Row(rec.key, uid, INITIAL_VERSION, rec.generation, rec.labels,
        if rec.createdAt.Some? then rec.createdAt.value else now, rec.data)
  }

  function Insert(t: Rows, tenants: set<Str>, rec: Record, uid: string, now: Time): (Rows, Answer) {
    if rec.key in t then (t, Err(ErrAlreadyExists))
    else if !InsertAllowed(t, tenants, rec.key, uid) then (t, Err(ErrInsert))
    else
      var row := NewRow(rec, uid, now);
      (t[rec.key := row], Ok(ToRecord(row)))
  }

  function Fetch(t: Rows, key: Key): Answer {
    if key in t then Ok(ToRecord(t[key])) else Err(ErrNotFound)
  }

  function Bumped(row: Row, rec: Record): Row {
    row.(rv := row.rv + 1, generation := rec.generation, labels := rec.labels, data := rec.data)
  }

  function Replace(t: Rows, rec: Record): (Rows, Answer) {
    if rec.key !in t then (t, Err(ErrNotFound))
    else if rec.resourceVersion != Decimal(t[rec.key].rv) then (t, Err(ErrConflict))
    else
      var row := Bumped(t[rec.key], rec);
      (t[rec.key := row], Ok(ToRecord(row)))
  }

  function Remove(t: Rows, key: Key): (Rows, Answer) {
    if key in t then (t - {key}, Ok(ToRecord(t[key]))) else (t, Err(ErrNotFound))
  }

  // ----- the contract of the operations -----

  /** What callers see of a row. */
  lemma RecordShowsRow(row: Row)
    ensures var rec := ToRecord(row);
            && rec.key == row.key && rec.uid == row.uid && rec.resourceVersion == Decimal(row.rv)
            && rec.generation == row.generation && rec.labels == row.labels
            && rec.createdAt == Some(row.createdAt) && rec.data == row.data
  {
  }

  /** A fetch answers the row of the key, or that there is none. */
  lemma FetchContract(t: Rows, key: Key)
    ensures key in t ==> Fetch(t, key) == Ok(ToRecord(t[key]))
    ensures key !in t ==> Fetch(t, key) == Err(ErrNotFound)
  {
  }

  /** Create stores a first version under a key that was free, with the given uid, the tenant being known
      and the uid unused, or leaves the table alone and says why; a fetch then finds what create
      answered. */
  lemma InsertContract(t: Rows, tenants: set<Str>, rec: Record, uid: string, now: Time)
    ensures var (t', answer) := Insert(t, tenants, rec, uid, now);
            && (answer == Err(ErrAlreadyExists) <==> rec.key in t)
            && (answer == Err(ErrInsert) <==>
                  rec.key !in t && (rec.key.tenant !in tenants || exists k :: k in t && t[k].uid == uid))
            && (answer.Err? ==> t' == t && answer.error in {ErrAlreadyExists, ErrInsert})
            && (answer.Ok? ==>
                  && Fetch(t', rec.key) == answer && t' - {rec.key} == t - {rec.key}
                  && answer.value.uid == uid && answer.value.resourceVersion == "1"
                  && (forall k :: k in t ==> t[k].uid != uid)
                  && answer.value.key == rec.key
                  && answer.value.createdAt == (if rec.createdAt.Some? then rec.createdAt else Some(now))
                  && answer.value.data == rec.data && answer.value.labels == rec.labels
                  && answer.value.generation == rec.generation)
  {
  }

  /** Update succeeds exactly when the row exists and the caller's version, read as a counter, is the
      stored counter; it then replaces generation, labels and body, keeps identity and creation time,
      and counts one up.  Otherwise it leaves the table alone and says why. */
  lemma ReplaceContract(t: Rows, rec: Record, n: nat)
    requires rec.resourceVersion == Decimal(n)
    requires rec.key in t ==> t[rec.key].key == rec.key
    ensures var (t', answer) := Replace(t, rec);
            && (answer == Err(ErrNotFound) <==> rec.key !in t)
            && (answer == Err(ErrConflict) <==> rec.key in t && t[rec.key].rv != n)
            && (answer.Ok? <==> rec.key in t && t[rec.key].rv == n)
            && (answer.Err? ==> t' == t)
            && (answer.Ok? ==>
                  && Fetch(t', rec.key) == answer && t' - {rec.key} == t - {rec.key}
                  && answer.value.resourceVersion == Decimal(n + 1) && answer.value.key == rec.key
                  && answer.value.uid == t[rec.key].uid && answer.value.createdAt == Some(t[rec.key].createdAt)
                  && answer.value.data == rec.data && answer.value.labels == rec.labels
                  && answer.value.generation == rec.generation)
  {
    if rec.key in t {
      DecimalInjective(t[rec.key].rv, n);
    }
  }

  /** Delete answers what a fetch would have, removes that row and no other, and a second delete finds
      nothing. */
  lemma RemoveContract(t: Rows, key: Key)
    ensures var (t', answer) := Remove(t, key);
            && answer == Fetch(t, key)
            && t' == t - {key} && key !in t'
            && Remove(t', key) == (t', Err(ErrNotFound))
  {
  }
}
