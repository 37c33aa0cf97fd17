/** Walking a listing page by page, while the table changes between the pages. */
module Walks {
  import opened Bytes
  import opened Api
  import opened Table
  import opened Paging

  function Concat<T>(pages: seq<seq<T>>): seq<T> {
    if pages == [] then [] else pages[0] + Concat(pages[1..])
  }

  /** A completed walk: page i is the answer to a list call on the i-th table with the i-th limit
      and the token of the page before; only the last page comes without a token. */
  ghost predicate IsWalk(tables: seq<seq<Row>>, f: Filter, limits: seq<int>, token: Str, pages: seq<seq<Record>>)
    requires |tables| == |limits| == |pages|
  {
    |tables| > 0 &&
    match List(tables[0], ListOptions(f, limits[0], token))
    case Err(_) => false
    case Ok((page, next)) =>
      && page == pages[0]
      && if |tables| == 1 then next == []
         else next != [] && IsWalk(tables[1..], f, limits[1..], next, pages[1..])
  }

  ghost predicate AllSorted(tables: seq<seq<Row>>) {
    forall rows :: rows in tables ==> Sorted(rows)
  }

  /** The project of the last record of a page, which goes into its token, holds no NUL byte. */
  predicate EndSafe(page: seq<Record>) {
    page != [] ==> NUL !in page[|page| - 1].key.project
  }

  /** Every page but the last, which has no token, ends in a project without a NUL byte. */
  predicate EndsSafe(pages: seq<seq<Record>>) {
    forall i :: 0 <= i < |pages| - 1 ==> EndSafe(pages[i])
  }

  ghost predicate Holds(rows: seq<Row>, f: Filter, key: Key) {
    exists row :: row in rows && row.key == key && Matching(row, f)
  }

  ghost predicate KeysAscend(records: seq<Record>) {
    forall i, j :: 0 <= i < j < |records| ==> CursorLess(CursorOf(records[i].key), CursorOf(records[j].key))
  }

  ghost predicate Listed(records: seq<Record>, key: Key) {
    exists r :: r in records && r.key == key
  }

  // ----- one page -----

  /** The page past a cursor, and the cursor that its token decodes to if it has one. */
  function PageAt(rows: seq<Row>, f: Filter, limit: int, after: Option<Cursor>): (seq<Record>, Option<Cursor>) {
    var out := Collect(rows, f, after);
    if limit <= 0 || |out| <= limit then (Records(out), None)
    else (Records(out[..limit]), Some(Resume(CursorOf(out[limit - 1].key))))
  }

  /** A list call answers the page past the cursor that its token decodes to. */
  lemma ListIsPageAt(rows: seq<Row>, f: Filter, limit: int, token: Str, after: Option<Cursor>) returns (next: Str)
    requires DecodeToken(token) == Ok(after)
    ensures var (page, from) := PageAt(rows, f, limit, after);
            && List(rows, ListOptions(f, limit, token)) == Ok((page, next))
            && (next == [] <==> from == None)
            && DecodeToken(next) == Ok(from)
  {
    var out := Collect(rows, f, after);
    next := [];
    if 0 < limit < |out| {
      next := EncodeToken(CursorOf(out[limit - 1].key));
      TokenResumes(CursorOf(out[limit - 1].key));
      assert Records(out)[..limit] == Records(out[..limit]);
    }
  }

  /** A page without a next token holds every matching row past the cursor.  A page with a token
      holds exactly those up to a last one, past which lies what the page left over.  The token never
      decodes to a cursor beyond that last row; it decodes to it if and only if its project holds no
      NUL byte, and otherwise to a cursor of an earlier project, so that the last row is listed again. */
  lemma PageSplits(rows: seq<Row>, f: Filter, limit: int, token: Str, after: Option<Cursor>)
    requires Sorted(rows) && DecodeToken(token) == Ok(after)
    ensures List(rows, ListOptions(f, limit, token)).Ok?
    ensures var (page, next) := List(rows, ListOptions(f, limit, token)).value;
            var out := Collect(rows, f, after);
            if next == [] then page == Records(out) && (limit <= 0 || |out| <= limit)
            else
              && 0 < limit < |out|
              && page == Records(out[..limit])
              && var last := CursorOf(out[limit - 1].key);
                 && Collect(rows, f, Some(last)) == out[limit..]
                 && DecodeToken(next).Ok? && DecodeToken(next).value.Some?
                 && (DecodeToken(next) == Ok(Some(last)) <==> NUL !in last.project)
                 && (NUL in last.project ==>
                       && Less(DecodeToken(next).value.value.project, last.project)
                       && out[limit - 1] in Collect(rows, f, DecodeToken(next).value))
  {
    var next := ListIsPageAt(rows, f, limit, token, after);
    var out := Collect(rows, f, after);
    if next != [] {
      CutPage(rows, f, limit, after);
      ListedAgain(rows, f, limit, after);
      TokenResumes(CursorOf(out[limit - 1].key));
    }
  }

  /** What a page with a token leaves over, and where its token leads. */
  lemma CutPage(rows: seq<Row>, f: Filter, limit: int, after: Option<Cursor>)
    requires Sorted(rows) && PageAt(rows, f, limit, after).1.Some?
    ensures var (page, from) := PageAt(rows, f, limit, after);
            var out := Collect(rows, f, after);
            && 0 < limit < |out| && page != [] && page == Records(out[..limit])
            && var last := CursorOf(out[limit - 1].key);
               && CursorOf(page[|page| - 1].key) == last
               && Collect(rows, f, Some(last)) == out[limit..]
               && (EndSafe(page) <==> from.value == last)
               && (!EndSafe(page) ==> CursorLess(from.value, last))
  {
    var out := Collect(rows, f, after);
    var last := CursorOf(out[limit - 1].key);
    LeftOver(rows, f, after, limit);
    TokenResumes(last);
    LessIrreflexive(last.project);
  }

  lemma ListedAgain(rows: seq<Row>, f: Filter, limit: int, after: Option<Cursor>)
    requires Sorted(rows) && PageAt(rows, f, limit, after).1.Some?
    ensures 0 < limit < |Collect(rows, f, after)|
    ensures !EndSafe(PageAt(rows, f, limit, after).0) ==>
              Collect(rows, f, after)[limit - 1] in Collect(rows, f, PageAt(rows, f, limit, after).1)
  {
    CutPage(rows, f, limit, after);
    var out := Collect(rows, f, after);
    assert out[limit - 1] in out;
    CollectMembers(rows, f, after);
    CollectMembers(rows, f, PageAt(rows, f, limit, after).1);
  }

  lemma LeftOver(rows: seq<Row>, f: Filter, after: Option<Cursor>, limit: nat)
    requires Sorted(rows)
    requires 0 < limit < |Collect(rows, f, after)|
    ensures var out := Collect(rows, f, after);
            Collect(rows, f, Some(CursorOf(out[limit - 1].key))) == out[limit..]
  {
    var out := Collect(rows, f, after);
    var last := CursorOf(out[limit - 1].key);
    var rest := Collect(rows, f, Some(last));
    CollectAscending(rows, f, after);
    CollectAscending(rows, f, Some(last));
    CollectMembers(rows, f, after);
    CollectMembers(rows, f, Some(last));
    assert out[limit - 1] in out;
    forall row ensures row in rest <==> row in out[limit..] {
      if row in rest {
        if after.Some? {
          CursorLessTransitive(after.value, last, CursorOf(row.key));
        }
        var i :| 0 <= i < |out| && out[i] == row;
        if i < limit {
          CursorLessIrreflexive(last);
          CursorLessTransitive(last, CursorOf(row.key), last);
        }
        assert out[limit..][i - limit] == row;
      }
      if row in out[limit..] {
        var i :| 0 <= i < |out| - limit && out[limit..][i] == row;
        assert out[limit + i] == row;
      }
    }
    AscendingUnique(rest, out[limit..]);
  }

  // ----- a walk over changing tables -----

  /** The same walk told by cursors instead of tokens. */
  ghost predicate IsCursorWalk(
      tables: seq<seq<Row>>, f: Filter, limits: seq<int>, after: Option<Cursor>, pages: seq<seq<Record>>)
    requires |tables| == |limits| == |pages|
  {
    |tables| > 0 &&
    var (page, from) := PageAt(tables[0], f, limits[0], after);
    && page == pages[0]
    && if |tables| == 1 then from == None
       else from.Some? && IsCursorWalk(tables[1..], f, limits[1..], from, pages[1..])
  }

  lemma {:induction false} WalkByCursors(
      tables: seq<seq<Row>>, f: Filter, limits: seq<int>, token: Str, after: Option<Cursor>, pages: seq<seq<Record>>)
    requires |tables| == |limits| == |pages| && DecodeToken(token) == Ok(after)
    ensures IsWalk(tables, f, limits, token, pages) <==> IsCursorWalk(tables, f, limits, after, pages)
  {
    if |tables| > 0 {
      var next := ListIsPageAt(tables[0], f, limits[0], token, after);
      if |tables| > 1 && next != [] {
        WalkByCursors(tables[1..], f, limits[1..], next, PageAt(tables[0], f, limits[0], after).1, pages[1..]);
      }
    }
  }

  ghost predicate HoldsThroughout(tables: seq<seq<Row>>, f: Filter, key: Key) {
    forall rows :: rows in tables ==> Holds(rows, f, key)
  }

  ghost predicate AllPast(records: seq<Record>, after: Option<Cursor>) {
    forall r :: r in records ==> Past(after, r.key)
  }

  /** Every key past the cursor that is present and matching throughout has been returned. */
  ghost predicate Covers(records: seq<Record>, tables: seq<seq<Row>>, f: Filter, after: Option<Cursor>) {
    forall key :: Past(after, key) && HoldsThroughout(tables, f, key) ==> Listed(records, key)
  }

  lemma TailSorted(tables: seq<seq<Row>>)
    requires tables != [] && AllSorted(tables)
    ensures Sorted(tables[0]) && AllSorted(tables[1..])
  {
    assert tables[0] in tables;
    assert forall t :: t in tables[1..] ==> t in tables;
  }

  /** Whatever the projects are called, a walk misses nothing that is there throughout. */
  lemma {:induction false} WalkCovers(
      tables: seq<seq<Row>>, f: Filter, limits: seq<int>, after: Option<Cursor>, pages: seq<seq<Record>>)
    requires |tables| == |limits| == |pages|
    requires AllSorted(tables) && IsCursorWalk(tables, f, limits, after, pages)
    ensures Covers(Concat(pages), tables, f, after)
  {
    TailSorted(tables);
    if |tables| == 1 {
      OnlyPage(pages[0]);
      assert pages == [pages[0]];
      LastPageCovers(tables, f, after);
    } else {
      var from := PageAt(tables[0], f, limits[0], after).1;
      WalkCovers(tables[1..], f, limits[1..], from, pages[1..]);
      CutPage(tables[0], f, limits[0], after);
      PageCovers(tables, f, after, limits[0], from.value, Concat(pages[1..]));
    }
  }

  lemma PageCovers(
      tables: seq<seq<Row>>, f: Filter, after: Option<Cursor>, limit: nat, from: Cursor, rest: seq<Record>)
    requires tables != [] && Sorted(tables[0]) && 0 < limit < |Collect(tables[0], f, after)|
    requires Covers(rest, tables[1..], f, Some(from))
    requires var last := CursorOf(Collect(tables[0], f, after)[limit - 1].key); from != last ==> CursorLess(from, last)
    ensures Covers(Records(Collect(tables[0], f, after)[..limit]) + rest, tables, f, after)
  {
    var all := Records(Collect(tables[0], f, after)[..limit]) + rest;
    forall key | Past(after, key) && HoldsThroughout(tables, f, key) ensures Listed(all, key) {
      OnPageOrLater(tables, f, after, limit, from, rest, key);
    }
  }

  lemma LastPageCovers(tables: seq<seq<Row>>, f: Filter, after: Option<Cursor>)
    requires |tables| == 1 && Sorted(tables[0])
    ensures Covers(Records(Collect(tables[0], f, after)), tables, f, after)
  {
    var out := Collect(tables[0], f, after);
    assert out[..|out|] == out;
    forall key | Past(after, key) && HoldsThroughout(tables, f, key) ensures Listed(Records(out), key) {
      assert tables[0] in tables;
      ListedByCollect(tables[0], f, after, key, |out|);
    }
  }

  /** A key that is there throughout is on this page or on a later one. */
  lemma OnPageOrLater(
      tables: seq<seq<Row>>, f: Filter, after: Option<Cursor>, limit: nat, from: Cursor, rest: seq<Record>, key: Key)
    requires tables != [] && Sorted(tables[0]) && 0 < limit < |Collect(tables[0], f, after)|
    requires Covers(rest, tables[1..], f, Some(from))
    requires var last := CursorOf(Collect(tables[0], f, after)[limit - 1].key); from != last ==> CursorLess(from, last)
    requires Past(after, key) && HoldsThroughout(tables, f, key)
    ensures Listed(Records(Collect(tables[0], f, after)[..limit]) + rest, key)
  {
    var page := Records(Collect(tables[0], f, after)[..limit]);
    var last := CursorOf(Collect(tables[0], f, after)[limit - 1].key);
    assert forall t :: t in tables[1..] ==> t in tables;
    if Past(Some(last), key) {
      if from != last {
        CursorLessTransitive(from, last, CursorOf(key));
      }
      assert Past(Some(from), key) && HoldsThroughout(tables[1..], f, key);
      var r :| r in rest && r.key == key;
      assert r in page + rest;
    } else {
      assert Holds(tables[0], f, key);
      ListedByCollect(tables[0], f, after, key, limit);
      var r :| r in page && r.key == key;
      assert r in page + rest;
    }
  }

  /** With tokens that decode to the rows they were made from, each page lies past the one before. */
  lemma {:induction false} WalkAscends(
      tables: seq<seq<Row>>, f: Filter, limits: seq<int>, after: Option<Cursor>, pages: seq<seq<Record>>)
    requires |tables| == |limits| == |pages|
    requires AllSorted(tables) && IsCursorWalk(tables, f, limits, after, pages) && EndsSafe(pages)
    ensures KeysAscend(Concat(pages)) && AllPast(Concat(pages), after)
  {
    TailSorted(tables);
    if |tables| == 1 {
      OnlyPage(pages[0]);
      assert pages == [pages[0]];
      LastPageAscends(tables[0], f, after);
    } else {
      assert EndSafe(pages[0]) && EndsSafe(pages[1..]);
      WalkAscends(tables[1..], f, limits[1..], PageAt(tables[0], f, limits[0], after).1, pages[1..]);
      PageThenRest(tables[0], f, limits[0], after, Concat(pages[1..]));
    }
  }

  lemma PageThenRest(rows: seq<Row>, f: Filter, limit: int, after: Option<Cursor>, rest: seq<Record>)
    requires Sorted(rows) && PageAt(rows, f, limit, after).1.Some? && EndSafe(PageAt(rows, f, limit, after).0)
    requires KeysAscend(rest) && AllPast(rest, PageAt(rows, f, limit, after).1)
    ensures var all := PageAt(rows, f, limit, after).0 + rest; KeysAscend(all) && AllPast(all, after)
  {
    CutPage(rows, f, limit, after);
    PrependPage(rows, f, after, limit, rest);
  }

  lemma LastPageAscends(rows: seq<Row>, f: Filter, after: Option<Cursor>)
    requires Sorted(rows)
    ensures KeysAscend(Records(Collect(rows, f, after))) && AllPast(Records(Collect(rows, f, after)), after)
  {
    var out := Collect(rows, f, after);
    assert out[..|out|] == out;
    PageOf(rows, f, after, |out|);
  }

  /** The rows of one page ascend and lie past the cursor. */
  lemma PageOf(rows: seq<Row>, f: Filter, after: Option<Cursor>, limit: nat)
    requires Sorted(rows) && limit <= |Collect(rows, f, after)|
    ensures KeysAscend(Records(Collect(rows, f, after)[..limit]))
    ensures AllPast(Records(Collect(rows, f, after)[..limit]), after)
  {
    var out := Collect(rows, f, after);
    CollectMembers(rows, f, after);
    CollectAscending(rows, f, after);
    forall r | r in Records(out[..limit]) ensures Past(after, r.key) {
      var i :| 0 <= i < limit && Records(out[..limit])[i] == r;
      assert out[i] in out;
    }
  }

  /** A page in front of the rest of the walk. */
  lemma PrependPage(rows: seq<Row>, f: Filter, after: Option<Cursor>, limit: nat, rest: seq<Record>)
    requires Sorted(rows) && 0 < limit < |Collect(rows, f, after)|
    requires KeysAscend(rest)
    requires AllPast(rest, Some(CursorOf(Collect(rows, f, after)[limit - 1].key)))
    ensures var all := Records(Collect(rows, f, after)[..limit]) + rest;
            KeysAscend(all) && AllPast(all, after)
  {
    var out := Collect(rows, f, after);
    var last := CursorOf(out[limit - 1].key);
    var page := Records(out[..limit]);
    PageOf(rows, f, after, limit);
    assert page[limit - 1] in page;
    forall r | r in rest ensures Past(after, r.key) {
      if after.Some? { CursorLessTransitive(after.value, last, CursorOf(r.key)); }
    }
    AppendAscends(page, rest);
  }

  /** A matching key past the cursor but not past the end of the page is on the page. */
  lemma ListedByCollect(rows: seq<Row>, f: Filter, after: Option<Cursor>, key: Key, limit: nat)
    requires Sorted(rows) && Holds(rows, f, key) && Past(after, key)
    requires limit <= |Collect(rows, f, after)|
    requires limit < |Collect(rows, f, after)| ==>
               limit > 0 && !Past(Some(CursorOf(Collect(rows, f, after)[limit - 1].key)), key)
    ensures Listed(Records(Collect(rows, f, after)[..limit]), key)
  {
    var out := Collect(rows, f, after);
    CollectMembers(rows, f, after);
    CollectAscending(rows, f, after);
    var row :| row in rows && row.key == key && Matching(row, f);
    assert row in out;
    var i :| 0 <= i < |out| && out[i] == row;
    assert i < limit;
    assert Records(out[..limit])[i].key == key;
  }

  lemma AppendAscends(page: seq<Record>, rest: seq<Record>)
    requires KeysAscend(page) && page != [] && KeysAscend(rest)
    requires AllPast(rest, Some(CursorOf(page[|page| - 1].key)))
    ensures KeysAscend(page + rest)
  {
    var all, n := page + rest, |page|;
    forall i, j | 0 <= i < j < |all| ensures CursorLess(CursorOf(all[i].key), CursorOf(all[j].key)) {
      if i < n <= j {
        assert all[j] in rest;
        if i < n - 1 {
          CursorLessTransitive(CursorOf(all[i].key), CursorOf(page[n - 1].key), CursorOf(all[j].key));
        }
      }
    }
  }

  ghost predicate ListedOnce(records: seq<Record>, key: Key) {
    exists i :: 0 <= i < |records| && records[i].key == key
      && forall j :: 0 <= j < |records| && records[j].key == key ==> j == i
  }

  /** Pagination under mutation.  In a completed walk from the first page, with any writes between
      the pages and any limits, every key that is present and matching throughout is returned.  If no
      page but the last ends in a project with a NUL byte, the keys returned strictly ascend, so that
      none is returned twice and each of these exactly once. */
  lemma WalkUnderMutation(tables: seq<seq<Row>>, f: Filter, limits: seq<int>, pages: seq<seq<Record>>)
    requires |tables| == |limits| == |pages|
    requires AllSorted(tables) && IsWalk(tables, f, limits, [], pages)
    ensures forall key :: HoldsThroughout(tables, f, key) ==> Listed(Concat(pages), key)
    ensures EndsSafe(pages) ==> KeysAscend(Concat(pages))
    ensures EndsSafe(pages) ==> forall key :: HoldsThroughout(tables, f, key) ==> ListedOnce(Concat(pages), key)
  {
    WalkByCursors(tables, f, limits, [], None, pages);
    WalkCovers(tables, f, limits, None, pages);
    forall key | HoldsThroughout(tables, f, key) ensures Listed(Concat(pages), key) {
      assert Past(None, key);
    }
    if EndsSafe(pages) {
      WalkAscends(tables, f, limits, None, pages);
      forall key | HoldsThroughout(tables, f, key) ensures ListedOnce(Concat(pages), key) {
        OnceBecauseAscending(Concat(pages), key);
      }
    }
  }

  lemma OnceBecauseAscending(records: seq<Record>, key: Key)
    requires KeysAscend(records) && Listed(records, key)
    ensures ListedOnce(records, key)
  {
    var r :| r in records && r.key == key;
    var i :| 0 <= i < |records| && records[i] == r;
    CursorLessIrreflexive(CursorOf(key));
  }

  // ----- a walk over a table that does not change -----

  function Copies(rows: seq<Row>, n: nat): (tables: seq<seq<Row>>)
    ensures |tables| == n
  {
    if n == 0 then [] else [rows] + Copies(rows, n - 1)
  }

  /** A completed walk of these pages over a table that does not change. */
  ghost predicate IsStaticWalk(rows: seq<Row>, f: Filter, limits: seq<int>, token: Str, pages: seq<seq<Record>>)
    requires |limits| == |pages|
  {
    IsWalk(Copies(rows, |pages|), f, limits, token, pages)
  }

  lemma {:induction false} CopiesAreSorted(rows: seq<Row>, n: nat)
    requires Sorted(rows)
    ensures AllSorted(Copies(rows, n))
  {
    if n > 0 {
      CopiesAreSorted(rows, n - 1);
    }
  }

  lemma OnlyPage<T>(page: seq<T>)
    ensures Concat([page]) == page
  {
  }

  lemma ConcatCons<T>(page: seq<T>, rest: seq<seq<T>>)
    ensures Concat([page] + rest) == page + Concat(rest)
    ensures ([page] + rest)[1..] == rest
  {
  }

  lemma RecordsSplit(out: seq<Row>, limit: nat)
    requires limit <= |out|
    ensures Records(out) == Records(out[..limit]) + Records(out[limit..])
  {
  }

  lemma EndsSafeCons(page: seq<Record>, rest: seq<seq<Record>>)
    requires rest != []
    ensures EndsSafe([page] + rest) <==> EndSafe(page) && EndsSafe(rest)
  {
    var pages := [page] + rest;
    assert forall i :: 0 <= i < |rest| ==> pages[i + 1] == rest[i];
    if EndsSafe(pages) {
      assert EndSafe(pages[0]);
      forall i | 0 <= i < |rest| - 1 ensures EndSafe(rest[i]) {
        assert EndSafe(pages[i + 1]);
      }
    }
  }

  /** The page that follows one that ends in a project with a NUL byte, while the table stays as it is,
      starts again at or before the row that page ended with, whatever its limit. */
  lemma NextPageRepeats(rows: seq<Row>, f: Filter, limit: int, after: Option<Cursor>, limit': int)
    requires Sorted(rows) && PageAt(rows, f, limit, after).1.Some? && !EndSafe(PageAt(rows, f, limit, after).0)
    ensures var (page, from) := PageAt(rows, f, limit, after);
            var again := PageAt(rows, f, limit', from).0;
            page != [] && again != [] && !CursorLess(CursorOf(page[|page| - 1].key), CursorOf(again[0].key))
  {
    CutPage(rows, f, limit, after);
    ListedAgain(rows, f, limit, after);
    var from := PageAt(rows, f, limit, after).1;
    var last, out := Collect(rows, f, after)[limit - 1], Collect(rows, f, from);
    CollectAscending(rows, f, from);
    var i :| 0 <= i < |out| && out[i] == last;
    if CursorLess(CursorOf(last.key), CursorOf(out[0].key)) {
      CursorLessIrreflexive(CursorOf(last.key));
      CursorLessTransitive(CursorOf(last.key), CursorOf(out[0].key), CursorOf(last.key));
    }
  }

  /** So the keys of a walk with such a page do not ascend. */
  lemma UnsafeEndRepeats(page: seq<Record>, rest: seq<seq<Record>>)
    requires page != [] && rest != [] && rest[0] != []
    requires !CursorLess(CursorOf(page[|page| - 1].key), CursorOf(rest[0][0].key))
    ensures !KeysAscend(Concat([page] + rest))
  {
    assert rest == [rest[0]] + rest[1..];
    ConcatCons(page, rest);
    ConcatCons(rest[0], rest[1..]);
    var all, n := page + (rest[0] + Concat(rest[1..])), |page|;
    assert all[n - 1] == page[n - 1] && all[n] == rest[0][0];
  }

  lemma AscendsExactly(page: seq<Record>, rest: seq<seq<Record>>)
    requires rest != [] && (KeysAscend(Concat(rest)) <==> EndsSafe(rest))
    requires EndsSafe([page] + rest) ==> KeysAscend(Concat([page] + rest))
    requires !EndSafe(page) ==>
               page != [] && rest[0] != [] && !CursorLess(CursorOf(page[|page| - 1].key), CursorOf(rest[0][0].key))
    ensures KeysAscend(Concat([page] + rest)) <==> EndsSafe([page] + rest)
  {
    EndsSafeCons(page, rest);
    ConcatCons(page, rest);
    if !EndSafe(page) {
      UnsafeEndRepeats(page, rest);
    } else if KeysAscend(Concat([page] + rest)) {
      SuffixAscends(page, Concat(rest));
    }
  }

  lemma SuffixAscends(page: seq<Record>, rest: seq<Record>)
    requires KeysAscend(page + rest)
    ensures KeysAscend(rest)
  {
    var all := page + rest;
    forall i, j | 0 <= i < j < |rest| ensures CursorLess(CursorOf(rest[i].key), CursorOf(rest[j].key)) {
      assert all[|page| + i] == rest[i] && all[|page| + j] == rest[j];
    }
  }

  /** A page in front of a walk over the same table. */
  lemma StaticStep(
      rows: seq<Row>, f: Filter, limit: int, limit': int, after: Option<Cursor>,
      page: seq<Record>, rest: seq<seq<Record>>)
    requires Sorted(rows) && page == PageAt(rows, f, limit, after).0 && PageAt(rows, f, limit, after).1.Some?
    requires rest != [] && rest[0] == PageAt(rows, f, limit', PageAt(rows, f, limit, after).1).0
    requires KeysAscend(Concat(rest)) <==> EndsSafe(rest)
    requires EndsSafe(rest) ==> Concat(rest) == Records(Collect(rows, f, PageAt(rows, f, limit, after).1))
    requires EndsSafe([page] + rest) ==> KeysAscend(Concat([page] + rest))
    ensures KeysAscend(Concat([page] + rest)) <==> EndsSafe([page] + rest)
    ensures EndsSafe([page] + rest) ==> Concat([page] + rest) == Records(Collect(rows, f, after))
  {
    CutPage(rows, f, limit, after);
    if !EndSafe(page) {
      NextPageRepeats(rows, f, limit, after, limit');
    }
    AscendsExactly(page, rest);
    EndsSafeCons(page, rest);
    ConcatCons(page, rest);
    RecordsSplit(Collect(rows, f, after), limit);
  }

  lemma {:induction false} StaticAscendsExactly(
      rows: seq<Row>, f: Filter, limits: seq<int>, after: Option<Cursor>, pages: seq<seq<Record>>)
    requires |limits| == |pages| && Sorted(rows)
    requires IsCursorWalk(Copies(rows, |pages|), f, limits, after, pages)
    ensures KeysAscend(Concat(pages)) <==> EndsSafe(pages)
    ensures EndsSafe(pages) ==> Concat(pages) == Records(Collect(rows, f, after))
    decreases |pages|
  {
    var tables := Copies(rows, |pages|);
    CopiesAreSorted(rows, |pages|);
    if EndsSafe(pages) {
      WalkAscends(tables, f, limits, after, pages);
    }
    var page, rest := pages[0], pages[1..];
    assert pages == [page] + rest;
    if rest == [] {
      OnlyPage(page);
    } else {
      assert tables[1..] == Copies(rows, |rest|);
      StaticAscendsExactly(rows, f, limits[1..], PageAt(rows, f, limits[0], after).1, rest);
      StaticStep(rows, f, limits[0], limits[1], after, page, rest);
    }
  }

  /** A completed walk over a table that does not change, from any token, returns keys in strictly
      ascending order if and only if no page but the last ends in a project with a NUL byte, and if so
      it returns the whole listing past the token. */
  lemma StaticWalkFrom(
      rows: seq<Row>, f: Filter, limits: seq<int>, token: Str, after: Option<Cursor>, pages: seq<seq<Record>>)
    requires |limits| == |pages| && Sorted(rows) && DecodeToken(token) == Ok(after)
    requires IsStaticWalk(rows, f, limits, token, pages)
    ensures KeysAscend(Concat(pages)) <==> EndsSafe(pages)
    ensures EndsSafe(pages) ==> Concat(pages) == Records(Collect(rows, f, after))
  {
    WalkByCursors(Copies(rows, |pages|), f, limits, token, after, pages);
    StaticAscendsExactly(rows, f, limits, after, pages);
  }

  /** A completed walk from the first page, over a table that does not change, returns what one
      unlimited list call returns if and only if no page but the last ends in a project with a NUL
      byte. */
  lemma StaticWalkIsTheListing(rows: seq<Row>, f: Filter, limits: seq<int>, pages: seq<seq<Record>>)
    requires |limits| == |pages| && Sorted(rows) && IsStaticWalk(rows, f, limits, [], pages)
    ensures List(rows, ListOptions(f, 0, [])) == Ok((Concat(pages), [])) <==> EndsSafe(pages)
  {
    StaticWalkFrom(rows, f, limits, [], None, pages);
    CollectAscending(rows, f, None);
  }

  // ----- whether a walk ends -----

  /** The pages a listing should come in. */
  function Chop(out: seq<Row>, limit: nat -> int, n: nat): (pages: seq<seq<Record>>)
    requires forall k: nat :: limit(k) > 0
    ensures pages != []
    decreases |out|
  {
    if |out| <= limit(n) then [Records(out)] else [Records(out[..limit(n)])] + Chop(out[limit(n)..], limit, n + 1)
  }

  /** No page exceeds its limit, and only the last may be short of it. */
  ghost predicate WithinLimits(pages: seq<seq<Record>>, limit: nat -> int, n: nat) {
    && pages != []
    && |pages[0]| <= limit(n)
    && (|pages| > 1 ==> |pages[0]| == limit(n) && WithinLimits(pages[1..], limit, n + 1))
  }

  lemma {:induction false} ChoppedPages(out: seq<Row>, limit: nat -> int, n: nat)
    requires forall k: nat :: limit(k) > 0
    ensures Concat(Chop(out, limit, n)) == Records(out)
    ensures WithinLimits(Chop(out, limit, n), limit, n)
    decreases |out|
  {
    if |out| <= limit(n) {
      OnlyPage(Records(out));
    } else {
      var rest := Chop(out[limit(n)..], limit, n + 1);
      ChoppedPages(out[limit(n)..], limit, n + 1);
      ConcatCons(Records(out[..limit(n)]), rest);
      RecordsSplit(out, limit(n));
    }
  }

  function LimitsFrom(limit: nat -> int, n: nat, count: nat): (limits: seq<int>)
    ensures |limits| == count
    decreases count
  {
    if count == 0 then [] else [limit(n)] + LimitsFrom(limit, n + 1, count - 1)
  }

  /** A completed walk over an unchanging table that asks for its i-th page with limit(n + i). */
  ghost predicate IsWalkWith(
      rows: seq<Row>, f: Filter, limit: nat -> int, n: nat, after: Option<Cursor>, pages: seq<seq<Record>>)
    decreases |pages|
  {
    pages != [] &&
    var (page, from) := PageAt(rows, f, limit(n), after);
    && page == pages[0]
    && if |pages| == 1 then from == None else from.Some? && IsWalkWith(rows, f, limit, n + 1, from, pages[1..])
  }

  lemma {:induction false} WalkWithIsWalk(
      rows: seq<Row>, f: Filter, limit: nat -> int, n: nat, after: Option<Cursor>, pages: seq<seq<Record>>)
    ensures IsWalkWith(rows, f, limit, n, after, pages) <==>
              IsCursorWalk(Copies(rows, |pages|), f, LimitsFrom(limit, n, |pages|), after, pages)
    decreases |pages|
  {
    if pages != [] {
      var tables, limits := Copies(rows, |pages|), LimitsFrom(limit, n, |pages|);
      assert tables[0] == rows && tables[1..] == Copies(rows, |pages| - 1);
      assert limits[0] == limit(n) && limits[1..] == LimitsFrom(limit, n + 1, |pages| - 1);
      WalkWithIsWalk(rows, f, limit, n + 1, PageAt(rows, f, limit(n), after).1, pages[1..]);
      CursorWalkStep(tables, f, limits, after, pages);
    }
  }

  lemma CursorWalkStep(
      tables: seq<seq<Row>>, f: Filter, limits: seq<int>, after: Option<Cursor>, pages: seq<seq<Record>>)
    requires |tables| == |limits| == |pages| > 0
    ensures IsCursorWalk(tables, f, limits, after, pages) <==>
              var (page, from) := PageAt(tables[0], f, limits[0], after);
              && page == pages[0]
              && if |tables| == 1 then from == None
                 else from.Some? && IsCursorWalk(tables[1..], f, limits[1..], from, pages[1..])
  {
  }

  lemma {:induction false} ChopIsAWalk(rows: seq<Row>, f: Filter, limit: nat -> int, n: nat, after: Option<Cursor>)
    requires Sorted(rows) && forall k: nat :: limit(k) > 0
    requires EndsSafe(Chop(Collect(rows, f, after), limit, n))
    ensures IsWalkWith(rows, f, limit, n, after, Chop(Collect(rows, f, after), limit, n))
    decreases |Collect(rows, f, after)|
  {
    var out := Collect(rows, f, after);
    if |out| > limit(n) {
      var rest := Chop(out[limit(n)..], limit, n + 1);
      EndsSafeCons(Records(out[..limit(n)]), rest);
      CutPage(rows, f, limit(n), after);
      ChopIsAWalk(rows, f, limit, n + 1, PageAt(rows, f, limit(n), after).1);
      assert ([Records(out[..limit(n)])] + rest)[1..] == rest;
    }
  }

  /** Pagination on a static table.  For any positive limits, if none of the pages that the listing
      past the token should come in ends in a project with a NUL byte, but for the last, then fetching
      page after page ends and returns exactly these pages. */
  lemma StaticWalk(rows: seq<Row>, f: Filter, limit: nat -> int, n: nat, token: Str, after: Option<Cursor>)
    requires Sorted(rows) && DecodeToken(token) == Ok(after)
    requires forall k: nat :: limit(k) > 0
    requires EndsSafe(Chop(Collect(rows, f, after), limit, n))
    ensures var pages := Chop(Collect(rows, f, after), limit, n);
            && IsStaticWalk(rows, f, LimitsFrom(limit, n, |pages|), token, pages)
            && Concat(pages) == Records(Collect(rows, f, after))
            && WithinLimits(pages, limit, n)
  {
    var pages := Chop(Collect(rows, f, after), limit, n);
    ChopIsAWalk(rows, f, limit, n, after);
    ChoppedPages(Collect(rows, f, after), limit, n);
    WalkWithIsWalk(rows, f, limit, n, after, pages);
    WalkByCursors(Copies(rows, |pages|), f, LimitsFrom(limit, n, |pages|), token, after, pages);
  }

  /** In the listing of a project with a NUL byte in its name, every token leads back to the beginning. */
  lemma StartsOver(rows: seq<Row>, f: Filter, limit: int, after: Option<Cursor>)
    requires Sorted(rows) && NUL in f.project && PageAt(rows, f, limit, after).1.Some?
    ensures Collect(rows, f, PageAt(rows, f, limit, after).1) == Collect(rows, f, None)
  {
    var from := PageAt(rows, f, limit, after).1;
    var last := Collect(rows, f, after)[limit - 1];
    CollectMembers(rows, f, after);
    assert last in Collect(rows, f, after);
    TokenResumes(CursorOf(last.key));
    LessIrreflexive(f.project);
    CollectMembers(rows, f, from);
    CollectMembers(rows, f, None);
    CollectAscending(rows, f, from);
    CollectAscending(rows, f, None);
    AscendingUnique(Collect(rows, f, from), Collect(rows, f, None));
  }

  /** Such a walk ends only with a page that takes the whole listing. */
  lemma {:induction false} EndsWithAWholePage(
      rows: seq<Row>, f: Filter, limit: nat -> int, n: nat, after: Option<Cursor>, pages: seq<seq<Record>>)
      returns (k: nat)
    requires Sorted(rows) && NUL in f.project && forall k: nat :: limit(k) > 0
    requires Collect(rows, f, after) == Collect(rows, f, None) && IsWalkWith(rows, f, limit, n, after, pages)
    ensures limit(k) >= |Collect(rows, f, None)|
    decreases |pages|
  {
    k := n;
    if |pages| > 1 {
      StartsOver(rows, f, limit(n), after);
      k := EndsWithAWholePage(rows, f, limit, n + 1, PageAt(rows, f, limit(n), after).1, pages[1..]);
    }
  }

  lemma {:induction false} WalkUntilWholePage(
      rows: seq<Row>, f: Filter, limit: nat -> int, n: nat, m: nat, after: Option<Cursor>)
      returns (pages: seq<seq<Record>>)
    requires Sorted(rows) && NUL in f.project && n <= m && forall k: nat :: limit(k) > 0
    requires Collect(rows, f, after) == Collect(rows, f, None) && limit(m) >= |Collect(rows, f, None)|
    ensures IsWalkWith(rows, f, limit, n, after, pages)
    decreases m - n
  {
    var (page, from) := PageAt(rows, f, limit(n), after);
    pages := [page];
    if from.Some? {
      StartsOver(rows, f, limit(n), after);
      var rest := WalkUntilWholePage(rows, f, limit, n + 1, m, from);
      pages := [page] + rest;
      assert pages[1..] == rest;
    }
  }

  /** Only the last row goes into no token. */
  lemma {:induction false} ChopOfSafeRows(out: seq<Row>, limit: nat -> int, n: nat)
    requires forall k: nat :: limit(k) > 0
    requires AllSafeButLast(out)
    ensures EndsSafe(Chop(out, limit, n))
    decreases |out|
  {
    if |out| > limit(n) {
      var rest := out[limit(n)..];
      assert forall i :: 0 <= i < |rest| ==> rest[i] == out[limit(n) + i];
      ChopOfSafeRows(rest, limit, n + 1);
      EndsSafeCons(Records(out[..limit(n)]), Chop(rest, limit, n + 1));
    }
  }

  ghost predicate AllSafeButLast(out: seq<Row>) {
    forall i :: 0 <= i < |out| - 1 ==> NUL !in out[i].key.project
  }

  /** Fetching page after page of the Workflows of one project, which stay as they are, ends if and only
      if the name of the project holds no NUL byte or some limit takes in all of them at once. */
  lemma WalkEndsExactly(rows: seq<Row>, f: Filter, limit: nat -> int)
    requires Sorted(rows) && f.project != [] && forall k: nat :: limit(k) > 0
    ensures (exists pages :: IsStaticWalk(rows, f, LimitsFrom(limit, 0, |pages|), [], pages)) <==>
              NUL !in f.project || exists k: nat :: limit(k) >= |Collect(rows, f, None)|
  {
    var out := Collect(rows, f, None);
    if NUL !in f.project {
      CollectMembers(rows, f, None);
      forall i | 0 <= i < |out| - 1 ensures NUL !in out[i].key.project {
        assert out[i] in out;
      }
      ChopOfSafeRows(out, limit, 0);
      StaticWalk(rows, f, limit, 0, [], None);
      assert IsStaticWalk(rows, f, LimitsFrom(limit, 0, |Chop(out, limit, 0)|), [], Chop(out, limit, 0));
    } else {
      if k: nat :| limit(k) >= |out| {
        var pages := WalkUntilWholePage(rows, f, limit, 0, k, None);
        WithIsStatic(rows, f, limit, pages);
      }
      if pages :| IsStaticWalk(rows, f, LimitsFrom(limit, 0, |pages|), [], pages) {
        WithIsStatic(rows, f, limit, pages);
        var k := EndsWithAWholePage(rows, f, limit, 0, None, pages);
      }
    }
  }

  /** A page of one row, before or at a row with a NUL byte in its project that is not the last of the
      listing, leads to a cursor before that row. */
  lemma StaysBefore(rows: seq<Row>, f: Filter, after: Option<Cursor>, row: Row, last: Row)
    requires Sorted(rows) && row in rows && last in rows && Matching(row, f) && Matching(last, f)
    requires NUL in row.key.project && CursorLess(CursorOf(row.key), CursorOf(last.key)) && Past(after, row.key)
    ensures PageAt(rows, f, 1, after).1.Some? && Past(PageAt(rows, f, 1, after).1, row.key)
  {
    var out := Collect(rows, f, after);
    CollectMembers(rows, f, after);
    CollectAscending(rows, f, after);
    if after.Some? {
      CursorLessTransitive(after.value, CursorOf(row.key), CursorOf(last.key));
    }
    assert row in out && last in out;
    CursorLessIrreflexive(CursorOf(row.key));
    CutPage(rows, f, 1, after);
    FirstIsNotAfter(out, row);
    var from := PageAt(rows, f, 1, after).1.value;
    if out[0] != row && from != CursorOf(out[0].key) {
      CursorLessTransitive(from, CursorOf(out[0].key), CursorOf(row.key));
    }
    assert PageAt(rows, f, 1, after).0[0].key == out[0].key;
  }

  lemma FirstIsNotAfter(out: seq<Row>, row: Row)
    requires Ascending(out) && row in out
    ensures out[0] == row || CursorLess(CursorOf(out[0].key), CursorOf(row.key))
  {
    var i :| 0 <= i < |out| && out[i] == row;
  }

  lemma {:induction false} NeverGetsPast(
      rows: seq<Row>, f: Filter, limit: nat -> int, n: nat, after: Option<Cursor>, pages: seq<seq<Record>>,
      row: Row, last: Row)
    requires Sorted(rows) && row in rows && last in rows && Matching(row, f) && Matching(last, f)
    requires NUL in row.key.project && CursorLess(CursorOf(row.key), CursorOf(last.key)) && Past(after, row.key)
    requires forall k: nat :: limit(k) == 1
    ensures !IsWalkWith(rows, f, limit, n, after, pages)
    decreases |pages|
  {
    StaysBefore(rows, f, after, row, last);
    if |pages| > 1 {
      NeverGetsPast(rows, f, limit, n + 1, PageAt(rows, f, 1, after).1, pages[1..], row, last);
    }
  }

  /** Fetching the rows of any listing one at a time, from a table that does not change, ends if and only if
      no row but the last has a NUL byte in its project. */
  lemma OneByOneEndsExactly(rows: seq<Row>, f: Filter, limit: nat -> int)
    requires Sorted(rows) && forall k: nat :: limit(k) == 1
    ensures (exists pages :: IsStaticWalk(rows, f, LimitsFrom(limit, 0, |pages|), [], pages)) <==>
              AllSafeButLast(Collect(rows, f, None))
  {
    var out := Collect(rows, f, None);
    if AllSafeButLast(out) {
      ChopOfSafeRows(out, limit, 0);
      StaticWalk(rows, f, limit, 0, [], None);
      assert IsStaticWalk(rows, f, LimitsFrom(limit, 0, |Chop(out, limit, 0)|), [], Chop(out, limit, 0));
    } else {
      var i :| 0 <= i < |out| - 1 && NUL in out[i].key.project;
      CollectMembers(rows, f, None);
      CollectAscending(rows, f, None);
      assert out[i] in out && out[|out| - 1] in out;
      forall pages ensures !IsStaticWalk(rows, f, LimitsFrom(limit, 0, |pages|), [], pages) {
        NeverGetsPast(rows, f, limit, 0, None, pages, out[i], out[|out| - 1]);
        WithIsStatic(rows, f, limit, pages);
      }
    }
  }

  lemma WithIsStatic(rows: seq<Row>, f: Filter, limit: nat -> int, pages: seq<seq<Record>>)
    ensures IsStaticWalk(rows, f, LimitsFrom(limit, 0, |pages|), [], pages) <==>
              IsWalkWith(rows, f, limit, 0, None, pages)
  {
    WalkWithIsWalk(rows, f, limit, 0, None, pages);
    WalkByCursors(Copies(rows, |pages|), f, LimitsFrom(limit, 0, |pages|), [], None, pages);
  }
}
