/** The migration runner: each script and its record in one transaction, in ascending order. */
module Migrations {
  datatype Migration = Migration(version: int, name: string, sql: string)

  /** The schema as the runner left it: the recorded versions, and the scripts whose transactions
      committed, in order. */
  datatype Schema = Schema(applied: set<int>, committed: seq<Migration>)

  // ----- the order of the scripts -----

  function Insert(m: Migration, sorted: seq<Migration>): seq<Migration> {
    if sorted == [] || m.version <= sorted[0].version then [m] + sorted else [sorted[0]] + Insert(m, sorted[1..])
  }

  /** The scripts by ascending version.  `sort.Slice` is not stable; with distinct versions there is
      only one such order. */
  function Sort(files: seq<Migration>): seq<Migration> {
    if files == [] then [] else Insert(files[0], Sort(files[1..]))
  }

  ghost predicate Distinct(files: seq<Migration>) {
    forall i, j :: 0 <= i < j < |files| ==> files[i].version != files[j].version
  }

  ghost predicate Ascending(files: seq<Migration>) {
    forall i, j :: 0 <= i < j < |files| ==> files[i].version < files[j].version
  }

  function Versions(files: seq<Migration>): set<int> {
    set m | m in files :: m.version
  }

  lemma {:induction false} InsertMembers(m: Migration, sorted: seq<Migration>)
    ensures forall x :: x in Insert(m, sorted) <==> x == m || x in sorted
  {
    if sorted == [] || m.version <= sorted[0].version {
    } else {
      InsertMembers(m, sorted[1..]);
      assert sorted == [sorted[0]] + sorted[1..];
    }
  }

  lemma {:induction false} InsertSorts(m: Migration, sorted: seq<Migration>)
    requires Ascending(sorted) && forall x :: x in sorted ==> x.version != m.version
    ensures Ascending(Insert(m, sorted))
  {
    if sorted == [] || m.version <= sorted[0].version {
      assert sorted != [] ==> sorted[0] in sorted;
    } else {
      InsertSorts(m, sorted[1..]);
      InsertMembers(m, sorted[1..]);
      var rest := Insert(m, sorted[1..]);
      forall i | 0 <= i < |rest| ensures sorted[0].version < rest[i].version {
        assert rest[i] in rest;
      }
    }
  }

  lemma {:induction false} SortSorts(files: seq<Migration>)
    requires Distinct(files)
    ensures Ascending(Sort(files))
    ensures forall x :: x in Sort(files) <==> x in files
  {
    if files == [] {
    } else {
      SortSorts(files[1..]);
      assert files == [files[0]] + files[1..];
      forall x | x in files[1..] ensures x.version != files[0].version {
        var j :| 0 <= j < |files[1..]| && files[1..][j] == x;
        assert files[j + 1] == x;
      }
      InsertSorts(files[0], Sort(files[1..]));
      InsertMembers(files[0], Sort(files[1..]));
    }
  }

  /** Scripts in ascending order are determined by which they are. */
  lemma {:induction false} AscendingUnique(a: seq<Migration>, b: seq<Migration>)
    requires Ascending(a) && Ascending(b) && forall x :: x in a <==> x in b
    ensures a == b
  {
    assert a != [] ==> a[0] in a;
    assert b != [] ==> b[0] in b;
    if a == [] {
    } else {
      assert a == [a[0]] + a[1..] && b == [b[0]] + b[1..];
      assert a[0] == b[0] by {
        var i :| 0 <= i < |b| && b[i] == a[0];
        var j :| 0 <= j < |a| && a[j] == b[0];
      }
      forall x ensures x in a[1..] <==> x in b[1..] {
        FirstIsAlone(a, x);
        FirstIsAlone(b, x);
      }
      AscendingUnique(a[1..], b[1..]);
    }
  }

  lemma FirstIsAlone(a: seq<Migration>, x: Migration)
    requires Ascending(a) && a != []
    ensures x in a[1..] <==> x in a && x != a[0]
  {
  }

  // ----- one run -----

  /** The loop over the sorted scripts.  `known` is what was recorded when the run began; the run is
      cut short, by a failing script or a crash, once it has committed `budget` scripts; recording a
      version twice fails on the primary key, and with it its transaction. */
  function ApplyAll(scripts: seq<Migration>, known: set<int>, db: Schema, budget: nat): (Schema, bool)
    decreases |scripts|
  {
    if scripts == [] then (db, true)
    else
      var m := scripts[0];
      if m.version in known then ApplyAll(scripts[1..], known, db, budget)
      else if budget == 0 || m.version in db.applied then (db, false)
      else ApplyAll(scripts[1..], known, Schema(db.applied + {m.version}, db.committed + [m]), budget - 1)
  }

  function MigrateOnce(files: seq<Migration>, db: Schema, budget: nat): (Schema, bool) {
    ApplyAll(Sort(files), db.applied, db, budget)
  }

  class Database {
    var schema: Schema

    constructor ()
      ensures schema == Schema({}, [])
    {
      schema := Schema({}, []);
    }

    /** One transaction: the script and the row that records it. */
    method ApplyMigration(m: Migration) returns (ok: bool)
      modifies this
      ensures ok <==> m.version !in old(schema).applied
      ensures schema ==
                if ok then Schema(old(schema).applied + {m.version}, old(schema).committed + [m]) else old(schema)
    {
      if m.version in schema.applied {
        return false;
      }
      schema := Schema(schema.applied + {m.version}, schema.committed + [m]);
      return true;
    }

    method Migrate(files: seq<Migration>, budget: nat) returns (ok: bool)
      modifies this
      ensures (schema, ok) == MigrateOnce(files, old(schema), budget)
    {
      var known := schema.applied;
      var scripts := Sort(files);
      var left := budget;
      for i := 0 to |scripts|
        invariant ApplyAll(scripts[i..], known, schema, left) == MigrateOnce(files, old(schema), budget)
      {
        assert scripts[i..][1..] == scripts[i + 1..];
        if scripts[i].version in known {
          continue;
        }
        if left == 0 {
          return false;
        }
        ok := ApplyMigration(scripts[i]);
        if !ok {
          return;
        }
        left := left - 1;
      }
      return true;
    }
  }

  // ----- all histories of releases, runs and crashes -----

  /** A release ships more scripts; a start runs the migrations, reading the scripts in some order. */
  datatype Event =
    | Release(more: seq<Migration>)
    | Start(order: seq<Migration>, budget: nat)

  datatype World = World(files: seq<Migration>, db: Schema)

  /** Released scripts are new, with versions above all earlier ones; a directory read finds the
      released scripts. */
  ghost predicate Possible(w: World, e: Event) {
    match e
    case Release(more) => Distinct(more) && forall f, m :: f in w.files && m in more ==> f.version < m.version
    case Start(order, _) => Distinct(order) && forall x :: x in order <==> x in w.files
  }

  function Next(w: World, e: Event): World {
    match e
    case Release(more) => w.(files := w.files + more)
    case Start(order, budget) => w.(db := MigrateOnce(order, w.db, budget).0)
  }

  function After(w: World, events: seq<Event>): World
    decreases |events|
  {
    if events == [] then w else After(Next(w, events[0]), events[1..])
  }

  ghost predicate PossibleHistory(w: World, events: seq<Event>)
    decreases |events|
  {
    events == [] || (Possible(w, events[0]) && PossibleHistory(Next(w, events[0]), events[1..]))
  }

  const EMPTY := World([], Schema({}, []))

  /** What has committed is a prefix of the released scripts in ascending order, each of them once,
      and exactly their versions are recorded. */
  ghost predicate PrefixApplied(w: World) {
    && Distinct(w.files)
    && w.db.committed <= Sort(w.files)
    && w.db.applied == Versions(w.db.committed)
  }

  /** A run on a schema that holds the first k scripts commits the next ones, as far as it gets. */
  lemma {:induction false} ApplyExtendsPrefix(
      sorted: seq<Migration>, i: nat, k: nat, known: set<int>, db: Schema, budget: nat)
    requires Ascending(sorted) && i <= |sorted| && k <= i
    requires known == Versions(sorted[..k])
    requires db == Schema(Versions(sorted[..i]), sorted[..i])
    ensures var (db', ok) := ApplyAll(sorted[i..], known, db, budget);
            var n := if |sorted| - i <= budget then |sorted| else i + budget;
            db' == Schema(Versions(sorted[..n]), sorted[..n]) && (ok <==> n == |sorted|)
    decreases |sorted| - i
  {
    if i < |sorted| {
      var m := sorted[i];
      assert sorted[i..][0] == m && sorted[i..][1..] == sorted[i + 1..];
      assert m.version !in Versions(sorted[..i]);
      assert m.version !in known by {
        assert forall x :: x in sorted[..k] ==> x in sorted[..i];
      }
      if budget > 0 {
        assert sorted[..i + 1] == sorted[..i] + [m];
        assert Versions(sorted[..i + 1]) == Versions(sorted[..i]) + {m.version};
        ApplyExtendsPrefix(sorted, i + 1, k, known, Schema(db.applied + {m.version}, db.committed + [m]), budget - 1);
      }
    }
  }

  /** The scripts already recorded are passed over. */
  lemma {:induction false} SkipsPrefix(sorted: seq<Migration>, j: nat, k: nat, db: Schema, budget: nat)
    requires Ascending(sorted) && j <= k <= |sorted| && db.applied == Versions(sorted[..k])
    ensures ApplyAll(sorted[j..], db.applied, db, budget) == ApplyAll(sorted[k..], db.applied, db, budget)
    decreases k - j
  {
    if j < k {
      assert sorted[..k][j] in sorted[..k];
      assert sorted[j..][0] == sorted[j] && sorted[j..][1..] == sorted[j + 1..];
      SkipsPrefix(sorted, j + 1, k, db, budget);
    }
  }

  /** From any reached schema, a run commits the released scripts that are missing, in ascending order,
      as many as it gets to; it reports success exactly when none is missing any more. */
  lemma StartExtends(w: World, order: seq<Migration>, budget: nat)
    requires PrefixApplied(w) && Possible(w, Start(order, budget))
    ensures var (db', ok) := MigrateOnce(order, w.db, budget);
            var all, k := Sort(w.files), |w.db.committed|;
            var n := if |all| - k <= budget then |all| else k + budget;
            db' == Schema(Versions(all[..n]), all[..n]) && (ok <==> n == |all|)
  {
    SortSorts(w.files);
    SortSorts(order);
    AscendingUnique(Sort(order), Sort(w.files));
    var all, k := Sort(w.files), |w.db.committed|;
    assert w.db.committed == all[..k];
    assert all[0..] == all;
    SkipsPrefix(all, 0, k, w.db, budget);
    ApplyExtendsPrefix(all, k, k, w.db.applied, w.db, budget);
  }

  lemma ReleaseExtends(w: World, more: seq<Migration>)
    requires PrefixApplied(w) && Possible(w, Release(more))
    ensures PrefixApplied(Next(w, Release(more)))
    ensures Sort(w.files + more) == Sort(w.files) + Sort(more)
  {
    var files := w.files + more;
    forall i, j | 0 <= i < j < |files| ensures files[i].version != files[j].version {
      if i < |w.files| <= j {
        assert files[i] in w.files && files[j] in more;
      }
    }
    SortSorts(w.files);
    SortSorts(more);
    SortSorts(files);
    var both := Sort(w.files) + Sort(more);
    forall i, j | 0 <= i < j < |both| ensures both[i].version < both[j].version {
      if i < |Sort(w.files)| <= j {
        assert both[i] in Sort(w.files) && both[j] in Sort(more);
      }
    }
    AscendingUnique(Sort(files), both);
  }

  /** The migration prefix invariant: after any releases, runs and crashes, the committed scripts are a
      prefix of the released ones in ascending order, each committed once, and exactly they are
      recorded. */
  lemma {:induction false} AlwaysAPrefix(w: World, events: seq<Event>)
    requires PrefixApplied(w) && PossibleHistory(w, events)
    ensures PrefixApplied(After(w, events))
    decreases |events|
  {
    if events == [] {
    } else {
      match events[0]
      case Release(more) =>
        ReleaseExtends(w, more);
        AlwaysAPrefix(Next(w, events[0]), events[1..]);
      case Start(order, budget) =>
        StartExtends(w, order, budget);
        AlwaysAPrefix(Next(w, events[0]), events[1..]);
    }
  }

  /** After any history from an empty database: the prefix invariant; a run that reports success leaves
      every released script committed; and a run after that changes nothing and succeeds. */
  lemma CompletedRunIsFinal(events: seq<Event>, order: seq<Migration>, budget: nat, again: seq<Migration>, budget': nat)
    requires PossibleHistory(EMPTY, events)
    requires var w := After(EMPTY, events); Possible(w, Start(order, budget)) && Possible(w, Start(again, budget'))
    ensures var w := After(EMPTY, events);
            var (db, ok) := MigrateOnce(order, w.db, budget);
            && PrefixApplied(w)
            && w.db.committed <= db.committed
            && (ok ==> db.committed == Sort(w.files) && MigrateOnce(again, db, budget') == (db, true))
  {
    AlwaysAPrefix(EMPTY, events);
    var w := After(EMPTY, events);
    StartExtends(w, order, budget);
    var (db, ok) := MigrateOnce(order, w.db, budget);
    if ok {
      var all := Sort(w.files);
      assert all[..|all|] == all;
      StartExtends(w.(db := db), again, budget');
    }
  }
}
