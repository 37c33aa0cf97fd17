/** The SQLite store: rows kept in primary-key order, refining the table of `Table`. */
module Store {
  import opened Bytes
  import opened Api
  import opened Table
  import opened Paging

  // ----- rows in index order and the table they hold -----

  ghost predicate UniqueUids(rows: seq<Row>) {
    forall i, j :: 0 <= i < j < |rows| ==> rows[i].uid != rows[j].uid
  }

  /** The rows in order and the table hold the same rows. */
  ghost predicate Represents(rows: seq<Row>, t: Rows) {
    && (forall i :: 0 <= i < |rows| ==> rows[i].key in t && t[rows[i].key] == rows[i])
    && (forall k :: k in t ==> t[k] in rows && t[k].key == k)
  }

  function TableOf(rows: seq<Row>): Rows {
    if rows == [] then map[] else TableOf(rows[..|rows| - 1])[rows[|rows| - 1].key := rows[|rows| - 1]]
  }

  lemma {:induction false} TableOfRepresents(rows: seq<Row>)
    requires Sorted(rows)
    ensures Represents(rows, TableOf(rows))
  {
    if rows == [] {
    } else {
      var n := |rows| - 1;
      TableOfRepresents(rows[..n]);
      AppendRepresents(rows, TableOf(rows[..n]));
    }
  }

  lemma AppendRepresents(rows: seq<Row>, t: Rows)
    requires Sorted(rows) && rows != [] && Represents(rows[..|rows| - 1], t)
    ensures Represents(rows, t[rows[|rows| - 1].key := rows[|rows| - 1]])
  {
    var n := |rows| - 1;
    KeyLessIrreflexive(rows[n].key);
    forall i | 0 <= i < n ensures rows[i].key in t && t[rows[i].key] == rows[i] {
      assert rows[..n][i] == rows[i];
    }
    forall k | k in t ensures t[k] in rows {
      var i :| 0 <= i < n && rows[..n][i] == t[k];
      assert rows[i] == t[k];
    }
  }

  lemma RepresentsUnique(rows: seq<Row>, t: Rows, u: Rows)
    requires Represents(rows, t) && Represents(rows, u)
    ensures t == u
  {
  }

  /** The index lookup: how many rows come before the key. */
  function Position(rows: seq<Row>, key: Key): (i: nat)
    ensures i <= |rows|
  {
    if rows == [] || !KeyLess(rows[0].key, key) then 0 else 1 + Position(rows[1..], key)
  }

  lemma {:induction false} PositionSplits(rows: seq<Row>, key: Key)
    requires Sorted(rows)
    ensures forall i :: 0 <= i < Position(rows, key) ==> KeyLess(rows[i].key, key)
    ensures forall i :: Position(rows, key) <= i < |rows| ==> rows[i].key == key || KeyLess(key, rows[i].key)
    ensures forall i :: Position(rows, key) < i < |rows| ==> KeyLess(key, rows[i].key)
  {
    if rows == [] {
    } else if KeyLess(rows[0].key, key) {
      PositionSplits(rows[1..], key);
      assert forall i :: 0 < i < |rows| ==> rows[i] == rows[1..][i - 1];
    } else {
      KeyLessTotal(rows[0].key, key);
      forall i | 0 < i < |rows| ensures KeyLess(key, rows[i].key) {
        if rows[0].key != key {
          KeyLessTransitive(key, rows[0].key, rows[i].key);
        }
      }
    }
  }

  /** The key is in the table exactly when its position holds it. */
  lemma PositionFinds(rows: seq<Row>, key: Key)
    requires Sorted(rows)
    ensures var i := Position(rows, key);
            key in TableOf(rows) <==> i < |rows| && rows[i].key == key
    ensures key in TableOf(rows) ==> TableOf(rows)[key] == rows[Position(rows, key)]
  {
    TableOfRepresents(rows);
    PositionSplits(rows, key);
    if key in TableOf(rows) {
      var i :| 0 <= i < |rows| && rows[i] == TableOf(rows)[key];
      KeyLessIrreflexive(key);
    }
  }

  lemma TableIs(rows: seq<Row>, t: Rows)
    requires Sorted(rows) && Represents(rows, t)
    ensures TableOf(rows) == t
  {
    TableOfRepresents(rows);
    RepresentsUnique(rows, t, TableOf(rows));
  }

  lemma InsertKeepsOrder(rows: seq<Row>, row: Row)
    requires Sorted(rows) && UniqueUids(rows) && row.key !in TableOf(rows)
    requires forall r :: r in rows ==> r.uid != row.uid
    ensures var i := Position(rows, row.key);
            var more := rows[..i] + [row] + rows[i..];
            Sorted(more) && UniqueUids(more) && TableOf(more) == TableOf(rows)[row.key := row]
  {
    var i := Position(rows, row.key);
    PositionSplits(rows, row.key);
    PositionFinds(rows, row.key);
    TableOfRepresents(rows);
    InsertAt(rows, TableOf(rows), i, row);
    TableIs(rows[..i] + [row] + rows[i..], TableOf(rows)[row.key := row]);
  }

  lemma InsertAt(rows: seq<Row>, t: Rows, i: nat, row: Row)
    requires Sorted(rows) && UniqueUids(rows) && Represents(rows, t)
    requires i <= |rows| && row.key !in t && forall r :: r in rows ==> r.uid != row.uid
    requires forall k :: 0 <= k < i ==> KeyLess(rows[k].key, row.key)
    requires forall k :: i <= k < |rows| ==> KeyLess(row.key, rows[k].key)
    ensures var more := rows[..i] + [row] + rows[i..];
            Sorted(more) && UniqueUids(more) && Represents(more, t[row.key := row])
  {
    InsertAtOrder(rows, i, row);
    var more, u := rows[..i] + [row] + rows[i..], t[row.key := row];
    forall k | 0 <= k < |more| ensures more[k].key in u && u[more[k].key] == more[k] {
      if k < i {
        assert more[k] == rows[k];
      } else if k > i {
        assert more[k] == rows[k - 1];
      }
    }
    forall k | k in u ensures u[k] in more && u[k].key == k {
      if k != row.key {
        var j :| 0 <= j < |rows| && rows[j] == t[k];
        assert more[if j < i then j else j + 1] == t[k];
      } else {
        assert more[i] == row;
      }
    }
  }

  lemma InsertAtOrder(rows: seq<Row>, i: nat, row: Row)
    requires Sorted(rows) && UniqueUids(rows)
    requires i <= |rows| && forall r :: r in rows ==> r.uid != row.uid
    requires forall k :: 0 <= k < i ==> KeyLess(rows[k].key, row.key)
    requires forall k :: i <= k < |rows| ==> KeyLess(row.key, rows[k].key)
    ensures Sorted(rows[..i] + [row] + rows[i..]) && UniqueUids(rows[..i] + [row] + rows[i..])
  {
  }

  lemma ReplaceKeepsOrder(rows: seq<Row>, i: nat, row: Row)
    requires Sorted(rows) && UniqueUids(rows) && i < |rows|
    requires row.key == rows[i].key && row.uid == rows[i].uid
    ensures var same := rows[i := row];
            Sorted(same) && UniqueUids(same) && TableOf(same) == TableOf(rows)[row.key := row]
  {
    TableOfRepresents(rows);
    ReplaceAt(rows, TableOf(rows), i, row);
    TableIs(rows[i := row], TableOf(rows)[row.key := row]);
  }

  lemma ReplaceAt(rows: seq<Row>, t: Rows, i: nat, row: Row)
    requires Sorted(rows) && UniqueUids(rows) && Represents(rows, t) && i < |rows|
    requires row.key == rows[i].key && row.uid == rows[i].uid
    ensures Sorted(rows[i := row]) && UniqueUids(rows[i := row]) && Represents(rows[i := row], t[row.key := row])
  {
    var same, u := rows[i := row], t[row.key := row];
    KeyLessIrreflexive(row.key);
    forall k | 0 <= k < |same| ensures same[k].key in u && u[same[k].key] == same[k] {
    }
    forall k | k in u ensures u[k] in same && u[k].key == k {
      if k != row.key {
        var j :| 0 <= j < |rows| && rows[j] == t[k];
        assert same[j] == t[k];
      } else {
        assert same[i] == row;
      }
    }
  }

  lemma RemoveKeepsOrder(rows: seq<Row>, i: nat)
    requires Sorted(rows) && UniqueUids(rows) && i < |rows|
    ensures var less := rows[..i] + rows[i + 1..];
            Sorted(less) && UniqueUids(less) && TableOf(less) == TableOf(rows) - {rows[i].key}
  {
    TableOfRepresents(rows);
    RemoveAt(rows, TableOf(rows), i);
    TableIs(rows[..i] + rows[i + 1..], TableOf(rows) - {rows[i].key});
  }

  lemma RemoveAt(rows: seq<Row>, t: Rows, i: nat)
    requires Sorted(rows) && UniqueUids(rows) && Represents(rows, t) && i < |rows|
    ensures var less := rows[..i] + rows[i + 1..];
            Sorted(less) && UniqueUids(less) && Represents(less, t - {rows[i].key})
  {
  }

  lemma UidsAgree(rows: seq<Row>, t: Rows, uid: string)
    requires Represents(rows, t)
    ensures (forall r :: r in rows ==> r.uid != uid) <==> (forall k :: k in t ==> t[k].uid != uid)
  {
  }

  // ----- the store -----

  class SqliteStore {
    var rows: seq<Row>
    const tenants: set<Str>

    ghost predicate Valid()
      reads this
    {
      Sorted(rows) && UniqueUids(rows)
    }

    ghost function Contents(): Rows
      reads this
    {
      TableOf(rows)
    }

    /** An opened database: the migrations seed the default tenant. */
    constructor ()
      ensures Valid() && Contents() == map[] && tenants == {"default"}
    {
      rows := [];
      tenants := {DEFAULT_TENANT};
    }

    method Create(rec: Record, uid: string, now: Time) returns (answer: Answer)
      requires Valid()
      modifies this
      ensures Valid() && (Contents(), answer) == Insert(old(Contents()), tenants, rec, uid, now)
    {
      PositionFinds(rows, rec.key);
      TableOfRepresents(rows);
      UidsAgree(rows, TableOf(rows), uid);
      var i := Position(rows, rec.key);
      if i < |rows| && rows[i].key == rec.key {
        return Err(ErrAlreadyExists);
      }
      if rec.key.tenant !in tenants || exists r :: r in rows && r.uid == uid {
        return Err(ErrInsert);
      }
      var row := NewRow(rec, uid, now);
      InsertKeepsOrder(rows, row);
      rows := rows[..i] + [row] + rows[i..];
      return Ok(ToRecord(row));
    }

    method Get(key: Key) returns (answer: Answer)
      requires Valid()
      ensures answer == Fetch(Contents(), key)
    {
      PositionFinds(rows, key);
      var i := Position(rows, key);
      if i == |rows| || rows[i].key != key {
        return Err(ErrNotFound);
      }
      return Ok(ToRecord(rows[i]));
    }

    method Update(rec: Record) returns (answer: Answer)
      requires Valid()
      modifies this
      ensures Valid() && (Contents(), answer) == Replace(old(Contents()), rec)
    {
      PositionFinds(rows, rec.key);
      var i := Position(rows, rec.key);
      if i == |rows| || rows[i].key != rec.key {
        return Err(ErrNotFound);
      }
      if rec.resourceVersion != Decimal(rows[i].rv) {
        return Err(ErrConflict);
      }
      var row := Bumped(rows[i], rec);
      ReplaceKeepsOrder(rows, i, row);
      rows := rows[i := row];
      return Ok(ToRecord(row));
    }

    method Delete(key: Key) returns (answer: Answer)
      requires Valid()
      modifies this
      ensures Valid() && (Contents(), answer) == Remove(old(Contents()), key)
    {
      PositionFinds(rows, key);
      var i := Position(rows, key);
      if i == |rows| || rows[i].key != key {
        return Err(ErrNotFound);
      }
      var row := rows[i];
      RemoveKeepsOrder(rows, i);
      rows := rows[..i] + rows[i + 1..];
      return Ok(ToRecord(row));
    }

    /** The query walks the rows of the tenant and kind in order; the cursor and the labels are
        checked row by row. */
    method ListRecords(opts: ListOptions) returns (answer: Listing)
      requires Valid()
      ensures answer == List(rows, opts)
    {
      var decoded := DecodeToken(opts.continueToken);
      if decoded.Err? {
        return Err(decoded.error);
      }
      var after := decoded.value;
      var out: seq<Record> := [];
      for i := 0 to |rows|
        invariant out == Records(Collect(rows[..i], opts.filter, after))
      {
        var row := rows[i];
        CollectNext(rows, i, opts.filter, after);
        if !InScope(row.key, opts.filter) {
          continue;
        }
        if after.Some? && !CursorLess(after.value, CursorOf(row.key)) {
          continue;
        }
        if !MatchesLabels(row.labels, opts.filter.labelSelector) {
          continue;
        }
        out := out + [ToRecord(row)];
      }
      assert rows[..|rows|] == rows;
      return Ok(Paginate(out, opts.limit));
    }
  }
}
