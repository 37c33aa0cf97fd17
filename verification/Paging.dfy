/** Listing: the order of the rows, the filters, and keyset pagination by continue token. */
module Paging {
  import opened Bytes
  import opened Api
  import opened Table
  import Base64

  // ----- orders -----

  datatype Cursor = Cursor(project: Str, name: Str)

  predicate CursorLess(a: Cursor, b: Cursor) {
    if a.project != b.project then Less(a.project, b.project) else Less(a.name, b.name)
  }

  function CursorOf(key: Key): Cursor {
    Cursor(key.project, key.name)
  }

  /** The order of the primary key, hence of the index the listing query walks. */
  predicate KeyLess(a: Key, b: Key) {
    if a.tenant != b.tenant then Less(a.tenant, b.tenant)
    else if a.kind != b.kind then Less(a.kind, b.kind)
    else CursorLess(CursorOf(a), CursorOf(b))
  }

  lemma CursorLessIrreflexive(a: Cursor)
    ensures !CursorLess(a, a)
  {
    LessIrreflexive(a.name);
  }

  lemma CursorLessTransitive(a: Cursor, b: Cursor, c: Cursor)
    requires CursorLess(a, b) && CursorLess(b, c)
    ensures CursorLess(a, c)
  {
    if a.project != b.project && b.project != c.project {
      LessTransitive(a.project, b.project, c.project);
      LessIrreflexive(a.project);
    } else if a.project == b.project && b.project == c.project {
      LessTransitive(a.name, b.name, c.name);
    }
    if a.project == c.project && a.project != b.project {
      LessTransitive(a.project, b.project, c.project);
      LessIrreflexive(a.project);
    }
  }

  lemma CursorLessTotal(a: Cursor, b: Cursor)
    ensures a == b || CursorLess(a, b) || CursorLess(b, a)
  {
    LessTotal(a.project, b.project);
    LessTotal(a.name, b.name);
  }

  lemma KeyLessIrreflexive(a: Key)
    ensures !KeyLess(a, a)
  {
    CursorLessIrreflexive(CursorOf(a));
  }

  lemma KeyLessTransitive(a: Key, b: Key, c: Key)
    requires KeyLess(a, b) && KeyLess(b, c)
    ensures KeyLess(a, c)
  {
    if a.tenant != b.tenant && b.tenant != c.tenant {
      LessTransitive(a.tenant, b.tenant, c.tenant);
      LessIrreflexive(a.tenant);
    } else if a.tenant == b.tenant && b.tenant == c.tenant {
      if a.kind != b.kind && b.kind != c.kind {
        LessTransitive(a.kind, b.kind, c.kind);
        LessIrreflexive(a.kind);
      } else if a.kind == b.kind && b.kind == c.kind {
        CursorLessTransitive(CursorOf(a), CursorOf(b), CursorOf(c));
      }
    }
  }

  lemma KeyLessTotal(a: Key, b: Key)
    ensures a == b || KeyLess(a, b) || KeyLess(b, a)
  {
    LessTotal(a.tenant, b.tenant);
    LessTotal(a.kind, b.kind);
    CursorLessTotal(CursorOf(a), CursorOf(b));
  }

  /** Strictly ascending by primary key: what the index guarantees. */
  ghost predicate Sorted(rows: seq<Row>) {
    forall i, j :: 0 <= i < j < |rows| ==> KeyLess(rows[i].key, rows[j].key)
  }

  // ----- the continue token -----

  function EncodeToken(c: Cursor): Str {
    Base64.Encode(c.project + [NUL] + c.name)
  }

  /** `strings.Cut` at the first occurrence of a byte. */
  function Cut(s: Str, at: Byte): Option<(Str, Str)> {
    if s == [] then None
    else if s[0] == at then Some(([], s[1..]))
    else
      match Cut(s[1..], at)
      case None => None
      case Some((before, after)) => Some(([s[0]] + before, after))
  }

  function DecodeToken(token: Str): Result<Option<Cursor>, StoreError> {
    if token == [] then Ok(None)
    else
      match Base64.Decode(token)
      case None => Err(ErrToken)
      case Some(raw) =>
        match Cut(raw, NUL)
        case None => Err(ErrToken)
        case Some((project, name)) => Ok(Some(Cursor(project, name)))
  }

  lemma {:induction false} CutInverts(before: Str, at: Byte, after: Str)
    requires at !in before
    ensures Cut(before + [at] + after, at) == Some((before, after))
  {
    var s := before + [at] + after;
    if before == [] {
      assert s[1..] == after;
    } else {
      assert s[1..] == before[1..] + [at] + after;
      CutInverts(before[1..], at, after);
      assert before == [before[0]] + before[1..];
    }
  }

  lemma {:induction false} CutFindsFirst(s: Str, at: Byte)
    ensures Cut(s, at).None? <==> at !in s
    ensures Cut(s, at).Some? ==> var (before, after) := Cut(s, at).value;
              at !in before && s == before + [at] + after
  {
    if s == [] {
    } else if s[0] == at {
      assert s == [] + [at] + s[1..];
    } else {
      CutFindsFirst(s[1..], at);
      assert s == [s[0]] + s[1..];
    }
  }

  /** The token is never empty, and it decodes to the cursor it was made from exactly when the
      project contains no NUL byte.  The name may contain any bytes. */
  lemma TokenRoundTrip(c: Cursor)
    ensures EncodeToken(c) != []
    ensures DecodeToken(EncodeToken(c)).Ok?
    ensures DecodeToken(EncodeToken(c)) == Ok(Some(c)) <==> NUL !in c.project
  {
    var raw := c.project + [NUL] + c.name;
    Base64.RoundTrip(raw);
    CutFindsFirst(raw, NUL);
    if NUL !in c.project {
      CutInverts(c.project, NUL, c.name);
    } else {
      assert NUL in raw;
    }
  }

  /** The cursor that the token made from this one decodes to. */
  function Resume(c: Cursor): Cursor {
    match Cut(c.project + [NUL] + c.name, NUL)
    case None => c
    case Some((project, name)) => Cursor(project, name)
  }

  /** Without a NUL byte in the project that is the cursor itself, and otherwise one of an earlier
      project: the part of the project before its first NUL. */
  lemma TokenResumes(c: Cursor)
    ensures EncodeToken(c) != [] && DecodeToken(EncodeToken(c)) == Ok(Some(Resume(c)))
    ensures Resume(c) == c <==> NUL !in c.project
    ensures NUL in c.project ==> Less(Resume(c).project, c.project)
  {
    var raw := c.project + [NUL] + c.name;
    TokenRoundTrip(c);
    Base64.RoundTrip(raw);
    CutFindsFirst(raw, NUL);
    if i :| 0 <= i < |c.project| && c.project[i] == NUL {
      var before := Cut(raw, NUL).value.0;
      assert raw[i] == NUL;
      assert before == raw[..|before|] == c.project[..|before|];
      PrefixLess(before, c.project);
    }
  }

  /** Which tokens are errors: those that do not decode, and those whose bytes hold no NUL.  The empty
      token is the beginning. */
  lemma TokenErrsExactly(token: Str)
    ensures DecodeToken(token).Err? <==>
              token != [] && (Base64.Decode(token).None? || NUL !in Base64.Decode(token).value)
    ensures DecodeToken(token).Err? ==> DecodeToken(token) == Err(ErrToken)
    ensures DecodeToken(token) == Ok(None) <==> token == []
  {
    if token != [] && Base64.Decode(token).Some? {
      CutFindsFirst(Base64.Decode(token).value, NUL);
    }
  }

  // ----- filters -----

  /** What a listing ranges over.  An empty project means every project of the tenant. */
  datatype Filter = Filter(tenant: Str, kind: Str, project: Str, labelSelector: Labels)

  /** A limit that is not positive means no limit; an empty token means the first page. */
  datatype ListOptions = ListOptions(filter: Filter, limit: int, continueToken: Str)

  /** Reading a Go map: a missing key reads as the empty string. */
  function LabelValue(labels: Labels, k: Str): Str {
    if k in labels then labels[k] else []
  }

  predicate MatchesLabels(labels: Labels, selector: Labels) {
    forall k :: k in selector ==> LabelValue(labels, k) == selector[k]
  }

  /** The selector as documented: every key must be present with its value. */
  predicate HasLabels(labels: Labels, selector: Labels) {
    forall k :: k in selector ==> k in labels && labels[k] == selector[k]
  }

  /** The code matches as documented except where the selector asks for the empty value of a label
      that the object does not carry. */
  lemma MatchesAsDocumentedExactlyUnless(labels: Labels, selector: Labels)
    ensures HasLabels(labels, selector) <==>
              MatchesLabels(labels, selector) && !(exists k :: k in selector && k !in labels && selector[k] == [])
  {
  }

  /** The WHERE clause of the listing query. */
  predicate InScope(key: Key, f: Filter) {
    key.tenant == f.tenant && key.kind == f.kind && (f.project != [] ==> key.project == f.project)
  }

  predicate Matching(row: Row, f: Filter) {
    InScope(row.key, f) && MatchesLabels(row.labels, f.labelSelector)
  }

  predicate Past(after: Option<Cursor>, key: Key) {
    after.Some? ==> CursorLess(after.value, CursorOf(key))
  }

  // ----- the specification of a list call -----

  /** The rows of a listing, in order: those that match and lie past the cursor. */
  function Collect(rows: seq<Row>, f: Filter, after: Option<Cursor>): seq<Row> {
    if rows == [] then []
    else
      var row := rows[|rows| - 1];
      var front := Collect(rows[..|rows| - 1], f, after);
      if Matching(row, f) && Past(after, row.key) then front + [row] else front
  }

  function Records(rows: seq<Row>): (out: seq<Record>)
    ensures |out| == |rows|
    ensures forall i :: 0 <= i < |rows| ==> out[i] == ToRecord(rows[i])
  {
    seq(|rows|, i requires 0 <= i < |rows| => ToRecord(rows[i]))
  }

  /** The page of a listing and the token of the next one. */
  function Paginate(out: seq<Record>, limit: int): (seq<Record>, Str) {
    if limit <= 0 || |out| <= limit then (out, [])
    else (out[..limit], EncodeToken(CursorOf(out[limit - 1].key)))
  }

  type Listing = Result<(seq<Record>, Str), StoreError>

  function List(rows: seq<Row>, opts: ListOptions): Listing {
    match DecodeToken(opts.continueToken)
    case Err(e) => Err(e)
    case Ok(after) => Ok(Paginate(Records(Collect(rows, opts.filter, after)), opts.limit))
  }

  // ----- what a listing contains -----

  /** The listing of one row more. */
  lemma CollectNext(rows: seq<Row>, i: nat, f: Filter, after: Option<Cursor>)
    requires i < |rows|
    ensures var front, wanted := Collect(rows[..i], f, after), Matching(rows[i], f) && Past(after, rows[i].key);
            && Collect(rows[..i + 1], f, after) == (if wanted then front + [rows[i]] else front)
            && Records(front + [rows[i]]) == Records(front) + [ToRecord(rows[i])]
  {
    assert rows[..i + 1][..i] == rows[..i];
  }

  ghost predicate Ascending(rows: seq<Row>) {
    forall i, j :: 0 <= i < j < |rows| ==> CursorLess(CursorOf(rows[i].key), CursorOf(rows[j].key))
  }

  lemma {:induction false} CollectMembers(rows: seq<Row>, f: Filter, after: Option<Cursor>)
    ensures forall row :: row in Collect(rows, f, after) <==>
                            row in rows && Matching(row, f) && Past(after, row.key)
  {
    if rows == [] {
    } else {
      var front := rows[..|rows| - 1];
      CollectMembers(front, f, after);
      assert rows == front + [rows[|rows| - 1]];
    }
  }

  lemma {:induction false} CollectAscending(rows: seq<Row>, f: Filter, after: Option<Cursor>)
    requires Sorted(rows)
    ensures Ascending(Collect(rows, f, after))
  {
    if rows == [] {
    } else {
      var n := |rows| - 1;
      var front := Collect(rows[..n], f, after);
      CollectAscending(rows[..n], f, after);
      CollectMembers(rows[..n], f, after);
      forall i | 0 <= i < |front| && Matching(rows[n], f)
        ensures CursorLess(CursorOf(front[i].key), CursorOf(rows[n].key))
      {
        assert front[i] in rows[..n];
        assert KeyLess(front[i].key, rows[n].key);
      }
    }
  }

  /** Two listings with the same members are the same list. */
  lemma {:induction false} AscendingUnique(a: seq<Row>, b: seq<Row>)
    requires Ascending(a) && Ascending(b)
    requires forall row :: row in a <==> row in b
    ensures a == b
  {
    assert a != [] ==> a[0] in a;
    assert b != [] ==> b[0] in b;
    if a == [] {
    } else {
      var m, n := |a| - 1, |b| - 1;
      assert a[m] in b && b[n] in a;
      if a[m] != b[n] {
        var i :| 0 <= i < |a| && a[i] == b[n];
        var j :| 0 <= j < |b| && b[j] == a[m];
        CursorLessTransitive(CursorOf(a[i].key), CursorOf(a[m].key), CursorOf(b[n].key));
        CursorLessIrreflexive(CursorOf(b[n].key));
      }
      forall row ensures row in a[..m] <==> row in b[..n] {
        LastIsAlone(a, row);
        LastIsAlone(b, row);
      }
      AscendingUnique(a[..m], b[..n]);
      assert a == a[..m] + [a[m]] && b == b[..n] + [b[n]];
    }
  }

  lemma LastIsAlone(a: seq<Row>, row: Row)
    requires Ascending(a) && a != []
    ensures row in a[..|a| - 1] <==> row in a && row != a[|a| - 1]
  {
    var m := |a| - 1;
    assert a == a[..m] + [a[m]];
    if row in a[..m] {
      var i :| 0 <= i < m && a[i] == row;
      CursorLessIrreflexive(CursorOf(a[m].key));
    }
  }

  /** What a listing holds, and in which order: the rows of the tenant and kind, of one project if one is
      asked for, past the cursor and with the labels asked for, a missing label reading as the empty
      string; by project and then by name, each byte by byte. */
  lemma ListedExactly(rows: seq<Row>, f: Filter, after: Option<Cursor>)
    requires Sorted(rows)
    ensures forall row :: row in Collect(rows, f, after) <==>
              && row in rows
              && row.key.tenant == f.tenant && row.key.kind == f.kind
              && (f.project == [] || row.key.project == f.project)
              && (forall k :: k in f.labelSelector && k in row.labels ==> row.labels[k] == f.labelSelector[k])
              && (forall k :: k in f.labelSelector && k !in row.labels ==> f.labelSelector[k] == [])
              && (after.None? || Follows(after.value.project, after.value.name, row.key))
    ensures var out := Collect(rows, f, after);
            forall i, j :: 0 <= i < j < |out| ==> Follows(out[i].key.project, out[i].key.name, out[j].key)
  {
    var out := Collect(rows, f, after);
    CollectMembers(rows, f, after);
    CollectAscending(rows, f, after);
    forall row: Row {
      SelectsExactly(row.labels, f.labelSelector);
    }
    forall c: Cursor, row: Row ensures CursorLess(c, CursorOf(row.key)) <==> Follows(c.project, c.name, row.key) {
      LessExactly(c.project, row.key.project);
      LessExactly(c.name, row.key.name);
    }
    forall i, j | 0 <= i < j < |out| ensures Follows(out[i].key.project, out[i].key.name, out[j].key) {
      assert CursorLess(CursorOf(out[i].key), CursorOf(out[j].key));
    }
  }

  /** The key comes after this project and name. */
  ghost predicate Follows(project: Str, name: Str, key: Key) {
    Precedes(project, key.project) || (project == key.project && Precedes(name, key.name))
  }

  lemma SelectsExactly(labels: Labels, selector: Labels)
    ensures MatchesLabels(labels, selector) <==>
              && (forall k :: k in selector && k in labels ==> labels[k] == selector[k])
              && (forall k :: k in selector && k !in labels ==> selector[k] == [])
  {
  }
}
