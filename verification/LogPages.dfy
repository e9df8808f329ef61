/** Listing execution logs page by page with a cursor, while the table changes. */
module LogPages {
  import opened Wrappers

  /** A log row. Its id is unique, and rows are ordered by creation time and then id. */
  datatype Row = Row(id: int, plan: int, status: string, createdAt: int)

  type Table = set<Row>

  /** A page position: everything before it, in key order, is still to come. */
  datatype Key = Key(time: int, id: int)

  predicate Less(a: Key, b: Key) {
    a.time < b.time || (a.time == b.time && a.id < b.id)
  }

  function KeyOf(r: Row): Key {
    Key(r.createdAt, r.id)
  }

  ghost predicate UniqueIds(t: Table) {
    forall a, b :: a in t && b in t && a.id == b.id ==> a == b
  }

  const PAGE_SIZE := 20

  // ---------- Filters ----------

  /** The conditions of ListByPlanID and of ListFailed. */
  datatype Filter =
    | ByPlan(plan: int, status: string, from: Option<int>, to: Option<int>)
    | Failed(planOrAll: Option<int>, from: Option<int>, to: Option<int>)

  predicate InTime(r: Row, from: Option<int>, to: Option<int>) {
    && (from.Some? ==> r.createdAt >= from.value)
    && (to.Some? ==> r.createdAt <= to.value)
  }

  predicate Selects(f: Filter, r: Row) {
    match f
    case ByPlan(plan, status, from, to) =>
      r.plan == plan && (status != "" ==> r.status == status) && InTime(r, from, to)
    case Failed(plan, from, to) =>
      && (r.status == "failed" || r.status == "timeout")
      && (plan.Some? ==> r.plan == plan.value) && InTime(r, from, to)
  }

  predicate Below(cursor: Option<Key>, r: Row) {
    cursor.Some? ==> Less(KeyOf(r), cursor.value)
  }

  /** The rows a page query selects. */
  function Pending(t: Table, f: Filter, cursor: Option<Key>): Table {
    set r | r in t && Selects(f, r) && Below(cursor, r)
  }

  // ---------- Descending order ----------

  predicate Descending(s: seq<Row>) {
    forall i, j :: 0 <= i < j < |s| ==> Less(KeyOf(s[j]), KeyOf(s[i]))
  }

  ghost predicate Lists(s: seq<Row>, t: Table) {
    forall r :: r in s <==> r in t
  }

  /** The only listing of a table in descending order. */
  lemma {:induction false} ListingIsUnique(s1: seq<Row>, s2: seq<Row>, t: Table)
    requires Descending(s1) && Descending(s2) && Lists(s1, t) && Lists(s2, t)
    ensures s1 == s2
    decreases |s1|
  {
    assert s2 != [] ==> s2[0] in s1;
    if s1 != [] {
      assert s1[0] in s2 && s2[0] in s1 by { assert s1[0] in t; }
      assert s1[0] == s2[0];
      var t' := t - {s1[0]};
      TailLists(s1, t);
      TailLists(s2, t);
      ListingIsUnique(s1[1..], s2[1..], t');
      assert s1 == [s1[0]] + s1[1..] && s2 == [s2[0]] + s2[1..];
    }
  }

  lemma TailLists(s: seq<Row>, t: Table)
    requires s != [] && Descending(s) && Lists(s, t)
    ensures Descending(s[1..]) && Lists(s[1..], t - {s[0]})
  {
    forall r
      ensures r in s[1..] <==> r in t - {s[0]}
    {
      if r in s[1..] {
        var k :| 0 <= k < |s[1..]| && s[1..][k] == r;
        assert s[k + 1] == r && Less(KeyOf(r), KeyOf(s[0]));
      }
      if r in t - {s[0]} {
        assert r in s && s == [s[0]] + s[1..];
      }
    }
  }

  lemma {:induction false} ListingSize(s: seq<Row>, t: Table)
    requires Descending(s) && Lists(s, t)
    ensures |s| == |t|
    decreases |s|
  {
    if s == [] {
      assert t == {};
    } else {
      TailLists(s, t);
      ListingSize(s[1..], t - {s[0]});
      assert s[0] in t;
    }
  }

  // ---------- The database ----------

  /** The row with the greatest key. */
  method Latest(t: Table) returns (r: Row)
    requires t != {} && UniqueIds(t)
    ensures r in t && forall q :: q in t && q != r ==> Less(KeyOf(q), KeyOf(r))
  {
    r :| r in t;
    var rest := t - {r};
    while rest != {}
      invariant r in t && rest <= t && r !in rest
      invariant forall q :: q in t - rest && q != r ==> Less(KeyOf(q), KeyOf(r))
    {
      var q :| q in rest;
      rest := rest - {q};
      if Less(KeyOf(r), KeyOf(q)) {
        r := q;
      }
    }
  }

  /** Order and Limit: the first n rows in descending order, and the whole listing they start. */
  method Find(t: Table, n: nat) returns (rows: seq<Row>, ghost listing: seq<Row>)
    requires UniqueIds(t)
    ensures Descending(listing) && Lists(listing, t)
    ensures rows == if |listing| <= n then listing else listing[..n]
    ensures |rows| <= n && Descending(rows) && forall r :: r in rows ==> r in t
    ensures forall q :: q in t && q !in rows ==> |rows| == n && forall r :: r in rows ==> Less(KeyOf(q), KeyOf(r))
  {
    listing := [];
    rows := [];
    var rest := t;
    while rest != {}
      invariant rest <= t && Descending(listing) && Lists(listing, t - rest)
      invariant forall q, r :: q in rest && r in listing ==> Less(KeyOf(q), KeyOf(r))
      invariant rows == if |listing| <= n then listing else listing[..n]
    {
      var r := Latest(rest);
      rest := rest - {r};
      if |rows| < n {
        rows := rows + [r];
      }
      listing := listing + [r];
    }
    assert t - rest == t;
    forall q | q in t && q !in rows
      ensures |rows| == n && forall r :: r in rows ==> Less(KeyOf(q), KeyOf(r))
    {
      assert q in listing;
    }
  }

  // ---------- One page ----------

  /** A page is the start of the pending rows in descending order; it names its last row as the
      next cursor exactly if rows are left over. */
  ghost predicate IsPage(t: Table, f: Filter, cursor: Option<Key>, limit: nat, logs: seq<Row>, next: Option<Key>)
  {
    exists listing: seq<Row> :: IsPageOf(listing, t, f, cursor, limit, logs, next)
  }

  ghost predicate IsPageOf(listing: seq<Row>, t: Table, f: Filter, cursor: Option<Key>, limit: nat,
                           logs: seq<Row>, next: Option<Key>) {
    && Descending(listing) && Lists(listing, Pending(t, f, cursor))
    && logs == (if |listing| <= limit then listing else listing[..limit])
    && next == if 0 < limit < |listing| then Some(KeyOf(listing[limit - 1])) else None
  }

  function PageLimit(limit: int): nat {
    if limit <= 0 then PAGE_SIZE else limit
  }

  /** Common to ListByPlanID and ListFailed, which differ in the filter only. */
  method List(t: Table, f: Filter, cursor: Option<Key>, limit: int) returns (logs: seq<Row>, next: Option<Key>)
    requires UniqueIds(t)
    ensures IsPage(t, f, cursor, PageLimit(limit), logs, next)
  {
    var size: nat := if limit <= 0 then PAGE_SIZE else limit;
    var q := set r | r in t && Selects(f, r);
    if cursor.Some? {
      q := set r | r in q && Less(KeyOf(r), cursor.value);
    }
    assert q == Pending(t, f, cursor);
    ghost var listing;
    logs, listing := Find(q, size + 1);
    next := None;
    if |logs| > size {
      var last := logs[size - 1];
      next := Some(KeyOf(last));
      logs := logs[..size];
    }
    assert IsPageOf(listing, t, f, cursor, size, logs, next);
  }

  // ---------- A walk over a changing table ----------

  /** The pages fetched one after the other, each from the table as it was then. */
  datatype Page = Page(table: Table, logs: seq<Row>, next: Option<Key>)

  /** The cursor the k-th fetch uses. */
  function CursorAt(pages: seq<Page>, start: Option<Key>, k: nat): Option<Key>
    requires k <= |pages|
  {
    if k == 0 then start else pages[k - 1].next
  }

  /** Each page but the last hands its cursor on; what happens to the table in between is arbitrary. */
  ghost predicate IsWalk(pages: seq<Page>, f: Filter, limit: nat, start: Option<Key>) {
    && limit > 0
    && (forall k :: 0 <= k < |pages| ==>
          IsPage(pages[k].table, f, CursorAt(pages, start, k), limit, pages[k].logs, pages[k].next))
    && (forall k :: 0 <= k < |pages| - 1 ==> pages[k].next.Some?)
  }

  predicate IsFinished(pages: seq<Page>) {
    |pages| > 0 && pages[|pages| - 1].next == None
  }

  function AllLogs(pages: seq<Page>): seq<Row> {
    if pages == [] then [] else pages[0].logs + AllLogs(pages[1..])
  }

  lemma WalkTail(pages: seq<Page>, f: Filter, limit: nat, start: Option<Key>)
    requires pages != [] && IsWalk(pages, f, limit, start)
    ensures IsWalk(pages[1..], f, limit, pages[0].next)
  {
    var tail := pages[1..];
    forall k | 0 <= k < |tail|
      ensures IsPage(tail[k].table, f, CursorAt(tail, pages[0].next, k), limit, tail[k].logs, tail[k].next)
    {
      assert tail[k] == pages[k + 1];
      assert CursorAt(tail, pages[0].next, k) == CursorAt(pages, start, k + 1);
    }
  }

  lemma WalkHead(pages: seq<Page>, f: Filter, limit: nat, start: Option<Key>)
    requires pages != [] && IsWalk(pages, f, limit, start)
    ensures limit > 0 && IsPage(pages[0].table, f, start, limit, pages[0].logs, pages[0].next)
    ensures |pages| > 1 ==> pages[0].next.Some?
  {
    assert CursorAt(pages, start, 0) == start;
  }

  lemma BelowCursor(cursor: Option<Key>, r: Row)
    ensures cursor.Some? && Less(KeyOf(r), cursor.value) ==> Below(cursor, r)
  {
  }

  /** What one page says about its rows and about the rows it leaves for later. */
  lemma PageFacts(t: Table, f: Filter, cursor: Option<Key>, limit: nat, logs: seq<Row>, next: Option<Key>)
    requires limit > 0 && IsPage(t, f, cursor, limit, logs, next)
    ensures Descending(logs) && |logs| <= limit
    ensures forall r :: r in logs ==> r in t && Selects(f, r) && Below(cursor, r)
    ensures next.Some? ==> |logs| == limit && next == Some(KeyOf(logs[limit - 1]))
    ensures forall r :: r in t && Selects(f, r) && Below(cursor, r) ==>
              r in logs || (next.Some? && Less(KeyOf(r), next.value))
  {
    var listing :| IsPageOf(listing, t, f, cursor, limit, logs, next);
    forall r | r in t && Selects(f, r) && Below(cursor, r)
      ensures r in logs || (next.Some? && Less(KeyOf(r), next.value))
    {
      assert r in Pending(t, f, cursor) && r in listing;
      var i :| 0 <= i < |listing| && listing[i] == r;
      if i < limit { assert logs[i] == r; }
    }
    forall r | r in logs
      ensures r in t && Selects(f, r) && Below(cursor, r)
    {
      assert r in listing && r in Pending(t, f, cursor);
    }
  }

  /** Everything a walk lists lies below its starting cursor. */
  lemma {:induction false} WalkStaysBelow(pages: seq<Page>, f: Filter, limit: nat, start: Option<Key>)
    requires IsWalk(pages, f, limit, start)
    ensures forall r :: r in AllLogs(pages) ==> Below(start, r)
    decreases |pages|
  {
    if pages != [] {
      var p := pages[0];
      PageFacts(p.table, f, CursorAt(pages, start, 0), limit, p.logs, p.next);
      WalkTail(pages, f, limit, start);
      WalkStaysBelow(pages[1..], f, limit, p.next);
      if |pages| > 1 {
        assert p.next.Some?;
        assert p.logs[limit - 1] in p.logs;
      }
    }
  }

  /** However the table changes, the pages together are strictly descending, so no row is listed twice. */
  lemma {:induction false} WalkIsDescending(pages: seq<Page>, f: Filter, limit: nat, start: Option<Key>)
    requires IsWalk(pages, f, limit, start)
    ensures Descending(AllLogs(pages))
    decreases |pages|
  {
    if pages != [] {
      var p := pages[0];
      PageFacts(p.table, f, CursorAt(pages, start, 0), limit, p.logs, p.next);
      WalkTail(pages, f, limit, start);
      WalkIsDescending(pages[1..], f, limit, p.next);
      WalkStaysBelow(pages[1..], f, limit, p.next);
      if |pages| > 1 {
        assert p.next.Some?;
        JoinDescending(p.logs, AllLogs(pages[1..]));
      } else {
        assert AllLogs(pages) == p.logs;
      }
    }
  }

  lemma JoinDescending(a: seq<Row>, b: seq<Row>)
    requires a != [] && Descending(a) && Descending(b)
    requires forall r :: r in b ==> Less(KeyOf(r), KeyOf(a[|a| - 1]))
    ensures Descending(a + b)
  {
    forall i, j | 0 <= i < j < |a + b|
      ensures Less(KeyOf((a + b)[j]), KeyOf((a + b)[i]))
    {
      if i < |a| <= j {
        assert b[j - |a|] in b;
        if i < |a| - 1 { assert Less(KeyOf(a[|a| - 1]), KeyOf(a[i])); }
      }
    }
  }

  /** A row that matches and is in the table at every fetch of a finished walk is listed. */
  lemma {:induction false} PresentRowIsListed(pages: seq<Page>, f: Filter, limit: nat, start: Option<Key>, r: Row)
    requires IsWalk(pages, f, limit, start) && IsFinished(pages)
    requires Selects(f, r) && Below(start, r)
    requires forall k :: 0 <= k < |pages| ==> r in pages[k].table
    ensures r in AllLogs(pages)
    decreases |pages|
  {
    hide IsWalk, Selects, Below, Less;
    var p := pages[0];
    WalkHead(pages, f, limit, start);
    PageFacts(p.table, f, start, limit, p.logs, p.next);
    assert AllLogs(pages) == p.logs + AllLogs(pages[1..]);
    if r !in p.logs {
      WalkTail(pages, f, limit, start);
      BelowCursor(p.next, r);
      PresentRowIsListed(pages[1..], f, limit, p.next, r);
    }
  }

  /** A listed row matched and was in the table when its page was fetched. */
  lemma {:induction false} ListedRowWasPresent(pages: seq<Page>, f: Filter, limit: nat, start: Option<Key>, r: Row)
    requires IsWalk(pages, f, limit, start) && r in AllLogs(pages)
    ensures Selects(f, r) && exists k :: 0 <= k < |pages| && r in pages[k].table
    decreases |pages|
  {
    var p := pages[0];
    PageFacts(p.table, f, CursorAt(pages, start, 0), limit, p.logs, p.next);
    if r in p.logs {
      assert r in pages[0].table;
    } else {
      WalkTail(pages, f, limit, start);
      ListedRowWasPresent(pages[1..], f, limit, p.next, r);
      var k :| 0 <= k < |pages[1..]| && r in pages[1..][k].table;
      assert r in pages[k + 1].table;
    }
  }

  // ---------- Inserts and cleanups between fetches ----------

  datatype Change = Insert(row: Row) | Cleanup(cutoff: int)

  function Apply(t: Table, c: Change): Table {
    match c
    case Insert(row) => t + {row}
    case Cleanup(cutoff) => set r | r in t && r.createdAt >= cutoff
  }

  function ApplyAll(t: Table, cs: seq<Change>): Table
    decreases |cs|
  {
    if cs == [] then t else ApplyAll(Apply(t, cs[0]), cs[1..])
  }

  /** A cleanup deletes exactly the rows older than its cutoff. */
  lemma CleanupMeaning(t: Table, cutoff: int, r: Row)
    ensures r in Apply(t, Cleanup(cutoff)) <==> r in t && !(r.createdAt < cutoff)
  {
  }

  predicate Spares(cs: seq<Change>, r: Row) {
    forall i :: 0 <= i < |cs| && cs[i].Cleanup? ==> r.createdAt >= cs[i].cutoff
  }

  lemma {:induction false} SparedRowStays(t: Table, cs: seq<Change>, r: Row)
    requires r in t && Spares(cs, r)
    ensures r in ApplyAll(t, cs)
    decreases |cs|
  {
    if cs != [] {
      SparedRowStays(Apply(t, cs[0]), cs[1..], r);
    }
  }

  /** The tables of a walk evolve by the changes made between its fetches. */
  ghost predicate Evolves(pages: seq<Page>, t: Table, changes: seq<seq<Change>>)
    decreases |pages|
  {
    && |changes| == |pages|
    && (pages != [] ==>
          && pages[0].table == ApplyAll(t, changes[0])
          && Evolves(pages[1..], pages[0].table, changes[1..]))
  }

  lemma {:induction false} SparedRowIsEverywhere(pages: seq<Page>, t: Table, changes: seq<seq<Change>>, r: Row)
    requires Evolves(pages, t, changes) && r in t
    requires forall k :: 0 <= k < |changes| ==> Spares(changes[k], r)
    ensures forall k :: 0 <= k < |pages| ==> r in pages[k].table
    decreases |pages|
  {
    if pages != [] {
      SparedRowStays(t, changes[0], r);
      SparedRowIsEverywhere(pages[1..], pages[0].table, changes[1..], r);
      forall k | 0 <= k < |pages|
        ensures r in pages[k].table
      {
        if k > 0 { assert pages[1..][k - 1] == pages[k]; }
      }
    }
  }

  /** A matching row that is there at the start and that no cleanup reaches is listed exactly once,
      whatever is inserted or cleaned up between the fetches. */
  lemma {:induction false} SurvivorsAreListedOnce(pages: seq<Page>, f: Filter, limit: nat, t: Table,
                                                  changes: seq<seq<Change>>, r: Row)
    requires IsWalk(pages, f, limit, None) && IsFinished(pages) && Evolves(pages, t, changes)
    requires r in t && Selects(f, r)
    requires forall k :: 0 <= k < |changes| ==> Spares(changes[k], r)
    ensures exists i :: 0 <= i < |AllLogs(pages)| && AllLogs(pages)[i] == r
    ensures forall i, j :: 0 <= i < j < |AllLogs(pages)| ==> AllLogs(pages)[i] != AllLogs(pages)[j]
  {
    SparedRowIsEverywhere(pages, t, changes, r);
    PresentRowIsListed(pages, f, limit, None, r);
    WalkIsDescending(pages, f, limit, None);
  }

  // ---------- A table at rest ----------

  predicate AtRest(pages: seq<Page>, t: Table) {
    forall k :: 0 <= k < |pages| ==> pages[k].table == t
  }

  /** The number of pages for n rows: one more for every full page before the last. */
  function PageCount(n: nat, limit: nat): nat
    requires limit > 0
  {
    if n <= limit then 1 else 1 + PageCount(n - limit, limit)
  }

  /** That is n over limit, rounded up, and one page for an empty table. */
  lemma {:induction false} PageCountIsCeiling(n: nat, limit: nat)
    requires limit > 0
    ensures (PageCount(n, limit) - 1) * limit < n || n == 0
    ensures n <= PageCount(n, limit) * limit
    ensures n == 0 ==> PageCount(n, limit) == 1
  {
    if n > limit {
      PageCountIsCeiling(n - limit, limit);
      var k := PageCount(n - limit, limit);
      assert (k + 1) * limit == k * limit + limit;
      assert (k + 1 - 1) * limit == (k - 1) * limit + limit;
    }
  }

  lemma PageOfPending(t: Table, f: Filter, cursor: Option<Key>, limit: nat, logs: seq<Row>, next: Option<Key>)
    requires limit > 0 && IsPage(t, f, cursor, limit, logs, next)
    ensures next.Some? <==> |Pending(t, f, cursor)| > limit
    ensures next.Some? ==> |Pending(t, f, next)| == |Pending(t, f, cursor)| - limit
  {
    var listing :| IsPageOf(listing, t, f, cursor, limit, logs, next);
    ListingSize(listing, Pending(t, f, cursor));
    if next.Some? {
      RestIsPending(listing, t, f, cursor, limit, next.value);
      ListingSize(listing[limit..], Pending(t, f, next));
    }
  }

  lemma RestIsPending(listing: seq<Row>, t: Table, f: Filter, cursor: Option<Key>, limit: nat, next: Key)
    requires Descending(listing) && Lists(listing, Pending(t, f, cursor))
    requires 0 < limit < |listing| && next == KeyOf(listing[limit - 1])
    ensures Descending(listing[limit..]) && Lists(listing[limit..], Pending(t, f, Some(next)))
  {
    var rest := listing[limit..];
    forall r
      ensures r in rest <==> r in Pending(t, f, Some(next))
    {
      if r in rest {
        var k :| 0 <= k < |rest| && rest[k] == r;
        assert listing[limit + k] == r && r in listing;
        assert Less(KeyOf(r), KeyOf(listing[limit - 1]));
      }
      if r in Pending(t, f, Some(next)) {
        assert Below(cursor, r) by {
          assert listing[limit - 1] in listing;
        }
        assert r in listing;
        var k :| 0 <= k < |listing| && listing[k] == r;
        assert k >= limit;
        assert rest[k - limit] == r;
      }
    }
  }

  /** Without changes a walk cannot go on past the pages needed, and it is finished exactly when it has them. */
  lemma {:induction false} WalkLength(pages: seq<Page>, f: Filter, limit: nat, start: Option<Key>, t: Table)
    requires IsWalk(pages, f, limit, start) && AtRest(pages, t)
    ensures |pages| <= PageCount(|Pending(t, f, start)|, limit)
    ensures IsFinished(pages) <==> |pages| == PageCount(|Pending(t, f, start)|, limit)
    decreases |pages|
  {
    if pages != [] {
      var p := pages[0];
      PageOfPending(t, f, start, limit, p.logs, p.next);
      if |pages| > 1 || p.next.Some? {
        WalkTail(pages, f, limit, start);
        WalkLength(pages[1..], f, limit, p.next, t);
        assert IsFinished(pages) <==> IsFinished(pages[1..]);
      }
    }
  }

  /** Without changes, a finished walk is the filtered table in descending order. */
  lemma {:induction false} RestingWalkListsAll(pages: seq<Page>, f: Filter, limit: nat, t: Table, listing: seq<Row>)
    requires IsWalk(pages, f, limit, None) && IsFinished(pages) && AtRest(pages, t)
    requires Descending(listing) && Lists(listing, Pending(t, f, None))
    ensures AllLogs(pages) == listing
    ensures |pages| == PageCount(|listing|, limit)
  {
    WalkIsDescending(pages, f, limit, None);
    forall r
      ensures r in AllLogs(pages) <==> r in Pending(t, f, None)
    {
      if r in AllLogs(pages) {
        ListedRowWasPresent(pages, f, limit, None, r);
      }
      if r in Pending(t, f, None) {
        PresentRowIsListed(pages, f, limit, None, r);
      }
    }
    ListingIsUnique(AllLogs(pages), listing, Pending(t, f, None));
    ListingSize(listing, Pending(t, f, None));
    WalkLength(pages, f, limit, None, t);
  }
}
