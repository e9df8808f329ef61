/** The textual interface of the log lists: cursors as strings, and the two list queries. */
module LogStore {
  import opened LogPages
  import opened Wrappers

  datatype CursorError = BadEncoding | BadFormat | BadTime | BadId

  datatype Result<+T> = Ok(value: T) | Err(error: CursorError)

  /** The library calls behind a cursor: times and ids as text, and the outer text encoding. */
  datatype Codec = Codec(
    showTime: int -> string,
    readTime: string -> Option<int>,
    showId: int -> string,
    readId: string -> Option<int>,
    encode: string -> string,
    decode: string -> Option<string>)

  /** What the library promises: each pair inverts, a time contains no bar, and text does not encode to nothing. */
  ghost predicate Lawful(c: Codec) {
    && (forall t: int :: c.readTime(c.showTime(t)) == Some(t) && '|' !in c.showTime(t))
    && (forall i: int :: c.readId(c.showId(i)) == Some(i))
    && (forall s: string :: c.decode(c.encode(s)) == Some(s) && (s != "" ==> c.encode(s) != ""))
  }

  function EncodeCursor(c: Codec, k: Key): string {
    c.encode(c.showTime(k.time) + "|" + c.showId(k.id))
  }

  /** The position of the first bar. */
  function FirstBar(s: string): (r: Option<nat>)
    ensures r.Some? ==> r.value < |s|
  {
    if s == "" then None
    else if s[0] == '|' then Some(0)
    else match FirstBar(s[1..]) case None => None case Some(n) => Some(n + 1)
  }

  function ParseCursor(c: Codec, cursor: string): Result<Key> {
    match c.decode(cursor)
    case None => Err(BadEncoding)
    case Some(data) =>
      match FirstBar(data)
      case None => Err(BadFormat)
      case Some(n) =>
        match c.readTime(data[..n])
        case None => Err(BadTime)
        case Some(t) =>
          match c.readId(data[n + 1..])
          case None => Err(BadId)
          case Some(id) => Ok(Key(t, id))
  }

  lemma {:induction false} BarAfterText(text: string, rest: string)
    requires '|' !in text
    ensures FirstBar(text + "|" + rest) == Some(|text|)
  {
    var s := text + "|" + rest;
    if text != "" {
      assert text[0] in text;
      assert s[1..] == text[1..] + "|" + rest;
      BarAfterText(text[1..], rest);
    }
  }

  /** A cursor that was handed out leads back to the row it names. */
  lemma CursorRoundTrip(c: Codec, k: Key)
    requires Lawful(c)
    ensures ParseCursor(c, EncodeCursor(c, k)) == Ok(k)
    ensures EncodeCursor(c, k) != ""
  {
    var time, id := c.showTime(k.time), c.showId(k.id);
    var data := time + "|" + id;
    assert c.decode(c.encode(data)) == Some(data);
    BarAfterText(time, id);
    assert data[..|time|] == time && data[|time| + 1..] == id;
  }

  /** A cursor is the encoded text of time, bar and id; the errors of parsing one, in the order they are looked for. */
  lemma CursorMeaning(c: Codec, k: Key, cursor: string)
    requires Lawful(c)
    ensures c.decode(EncodeCursor(c, k)) == Some(c.showTime(k.time) + "|" + c.showId(k.id))
    ensures c.decode(cursor) == None ==> ParseCursor(c, cursor) == Err(BadEncoding)
    ensures c.decode(cursor).Some? && '|' !in c.decode(cursor).value ==> ParseCursor(c, cursor) == Err(BadFormat)
  {
    if c.decode(cursor).Some? && '|' !in c.decode(cursor).value {
      NoBar(c.decode(cursor).value);
    }
  }

  lemma {:induction false} NoBar(s: string)
    requires '|' !in s
    ensures FirstBar(s) == None
  {
    if s != "" {
      assert s[0] in s && forall x :: x in s[1..] ==> x in s;
      NoBar(s[1..]);
    }
  }

  /** The text before the first bar is the time, the rest, further bars included, the id. */
  lemma PartsOfCursor(c: Codec, cursor: string, time: string, id: string)
    requires c.decode(cursor) == Some(time + "|" + id) && '|' !in time
    ensures
      ParseCursor(c, cursor)
      == match c.readTime(time)
         case None => Err(BadTime)
         case Some(t) => match c.readId(id) case None => Err(BadId) case Some(i) => Ok(Key(t, i))
  {
    BarAfterText(time, id);
    var data := time + "|" + id;
    assert data[..|time|] == time && data[|time| + 1..] == id;
  }

  /** The position a cursor string stands for; the empty string is the first page. */
  function Position(c: Codec, cursor: string): Result<Option<Key>> {
    if cursor == "" then Ok(None)
    else match ParseCursor(c, cursor)
      case Ok(k) => Ok(Some(k))
      case Err(e) => Err(e)
  }

  function CursorText(c: Codec, next: Option<Key>): string {
    match next case None => "" case Some(k) => EncodeCursor(c, k)
  }

  /** So paging by strings walks like paging by positions, and the empty string ends the walk. */
  lemma NextCursorIsNextPosition(c: Codec, next: Option<Key>)
    requires Lawful(c)
    ensures Position(c, CursorText(c, next)) == Ok(next)
    ensures CursorText(c, next) == "" <==> next == None
  {
    if next.Some? { CursorRoundTrip(c, next.value); }
  }

  /** What a list query returns: a page and its cursor, or the cursor's error. */
  ghost predicate IsAnswer(c: Codec, t: Table, f: Filter, cursor: string, limit: int,
                           answer: Result<(seq<Row>, string)>) {
    match Position(c, cursor)
    case Err(e) => answer == Err(e)
    case Ok(at) =>
      && answer.Ok?
      && exists next :: IsPage(t, f, at, PageLimit(limit), answer.value.0, next)
                        && answer.value.1 == CursorText(c, next)
  }

  /** Earlier in time, or at the same time with a smaller id. */
  predicate Older(r: Row, time: int, id: int) {
    r.createdAt < time || (r.createdAt == time && r.id < id)
  }

  /** A page of the rows wanted below a position: at most max of them, the newest first. Those left over are older than
      the last row listed, which the next cursor then names; without any the next cursor is empty. */
  ghost predicate ListsWanted(c: Codec, t: Table, wanted: Row -> bool, at: Option<Key>, max: nat, logs: seq<Row>,
                              next: string) {
    && |logs| <= max
    && (forall r :: r in logs ==> r in t && wanted(r) && (at.Some? ==> Older(r, at.value.time, at.value.id)))
    && (forall i, j :: 0 <= i < j < |logs| ==> Older(logs[j], logs[i].createdAt, logs[i].id))
    && (forall r :: r in t && wanted(r) && (at.Some? ==> Older(r, at.value.time, at.value.id)) && r !in logs ==>
          && 0 < max == |logs| && Older(r, logs[max - 1].createdAt, logs[max - 1].id)
          && next == EncodeCursor(c, Key(logs[max - 1].createdAt, logs[max - 1].id)))
    && ((forall r :: r in t && wanted(r) && (at.Some? ==> Older(r, at.value.time, at.value.id)) ==> r in logs) ==>
          next == "")
  }

  /** An empty cursor starts at the newest row; one that does not parse is an error. */
  ghost predicate Answers(c: Codec, t: Table, wanted: Row -> bool, cursor: string, max: nat,
                          answer: Result<(seq<Row>, string)>) {
    if cursor == "" then answer.Ok? && ListsWanted(c, t, wanted, None, max, answer.value.0, answer.value.1)
    else
      match ParseCursor(c, cursor)
      case Err(e) => answer == Err(e)
      case Ok(k) => answer.Ok? && ListsWanted(c, t, wanted, Some(k), max, answer.value.0, answer.value.1)
  }

  lemma PageListsWanted(c: Codec, t: Table, f: Filter, wanted: Row -> bool, at: Option<Key>, max: nat, logs: seq<Row>,
                        next: Option<Key>)
    requires forall r :: wanted(r) <==> Selects(f, r)
    requires max > 0 && IsPage(t, f, at, max, logs, next)
    ensures ListsWanted(c, t, wanted, at, max, logs, CursorText(c, next))
  {
    hide Selects;
    PageFacts(t, f, at, max, logs, next);
    if next.Some? {
      var left := PageLeavesRow(t, f, at, max, logs, next);
      assert left in t && wanted(left) && left !in logs;
    }
  }

  /** A page with a next cursor leaves a row for later. */
  lemma PageLeavesRow(t: Table, f: Filter, at: Option<Key>, max: nat, logs: seq<Row>, next: Option<Key>)
    returns (left: Row)
    requires max > 0 && IsPage(t, f, at, max, logs, next) && next.Some?
    ensures left in t && Selects(f, left) && Below(at, left) && left !in logs
  {
    var listing :| IsPageOf(listing, t, f, at, max, logs, next);
    left := listing[max];
    assert left in listing;
    assert left in Pending(t, f, at);
    forall i | 0 <= i < |logs|
      ensures logs[i] != left
    {
      assert logs[i] == listing[i];
    }
  }

  lemma AnswersWanted(c: Codec, t: Table, f: Filter, wanted: Row -> bool, cursor: string, limit: int,
                      answer: Result<(seq<Row>, string)>)
    requires forall r :: wanted(r) <==> Selects(f, r)
    requires IsAnswer(c, t, f, cursor, limit, answer)
    ensures Answers(c, t, wanted, cursor, if limit <= 0 then 20 else limit, answer)
  {
    hide IsPage, Selects, ListsWanted;
    var at := Position(c, cursor);
    if at.Ok? {
      var next :| IsPage(t, f, at.value, PageLimit(limit), answer.value.0, next)
                  && answer.value.1 == CursorText(c, next);
      PageListsWanted(c, t, f, wanted, at.value, PageLimit(limit), answer.value.0, next);
    }
  }

  method ListByPlanID(c: Codec, t: Table, plan: int, cursor: string, limit: int, status: string,
                      from: Option<int>, to: Option<int>)
    returns (answer: Result<(seq<Row>, string)>)
    requires UniqueIds(t)
    ensures IsAnswer(c, t, ByPlan(plan, status, from, to), cursor, limit, answer)
    ensures
      var wanted := (r: Row) =>
        && r.plan == plan && (status != "" ==> r.status == status)
        && (from.Some? ==> r.createdAt >= from.value) && (to.Some? ==> r.createdAt <= to.value);
      Answers(c, t, wanted, cursor, if limit <= 0 then 20 else limit, answer)
  {
    answer := Query(c, t, ByPlan(plan, status, from, to), cursor, limit);
    ghost var wanted := (r: Row) =>
      && r.plan == plan && (status != "" ==> r.status == status)
      && (from.Some? ==> r.createdAt >= from.value) && (to.Some? ==> r.createdAt <= to.value);
    AnswersWanted(c, t, ByPlan(plan, status, from, to), wanted, cursor, limit, answer);
  }

  method ListFailed(c: Codec, t: Table, cursor: string, limit: int, plan: Option<int>,
                    from: Option<int>, to: Option<int>)
    returns (answer: Result<(seq<Row>, string)>)
    requires UniqueIds(t)
    ensures IsAnswer(c, t, Failed(plan, from, to), cursor, limit, answer)
    ensures
      var wanted := (r: Row) =>
        && (r.status == "failed" || r.status == "timeout") && (plan.Some? ==> r.plan == plan.value)
        && (from.Some? ==> r.createdAt >= from.value) && (to.Some? ==> r.createdAt <= to.value);
      Answers(c, t, wanted, cursor, if limit <= 0 then 20 else limit, answer)
  {
    answer := Query(c, t, Failed(plan, from, to), cursor, limit);
    ghost var wanted := (r: Row) =>
      && (r.status == "failed" || r.status == "timeout") && (plan.Some? ==> r.plan == plan.value)
      && (from.Some? ==> r.createdAt >= from.value) && (to.Some? ==> r.createdAt <= to.value);
    AnswersWanted(c, t, Failed(plan, from, to), wanted, cursor, limit, answer);
  }

  method Query(c: Codec, t: Table, f: Filter, cursor: string, limit: int)
    returns (answer: Result<(seq<Row>, string)>)
    requires UniqueIds(t)
    ensures IsAnswer(c, t, f, cursor, limit, answer)
  {
    var at: Option<Key> := None;
    if cursor != "" {
      match ParseCursor(c, cursor) {
        case Err(e) => return Err(e);
        case Ok(k) => at := Some(k);
      }
    }
    var logs, next := List(t, f, at, limit);
    var nextCursor := "";
    if next.Some? {
      nextCursor := EncodeCursor(c, next.value);
    }
    assert nextCursor == CursorText(c, next);
    return Ok((logs, nextCursor));
  }

  // ---------- A walk by strings ----------

  /** One request of a walk: the table then, the cursor string sent, and the answer. */
  datatype Request = Request(table: Table, cursor: string, logs: seq<Row>, next: string)

  /** A client's walk: it starts without a cursor and sends back each cursor it gets until that is empty. */
  ghost predicate IsTextWalk(c: Codec, rs: seq<Request>, f: Filter, limit: int) {
    && (forall k :: 0 <= k < |rs| ==>
          && rs[k].cursor == (if k == 0 then "" else rs[k - 1].next)
          && IsAnswer(c, rs[k].table, f, rs[k].cursor, limit, Ok((rs[k].logs, rs[k].next))))
    && (forall k :: 0 <= k < |rs| - 1 ==> rs[k].next != "")
  }

  /** Such a walk is a walk by positions, with the same pages, and it ends where that ends. */
  lemma {:induction false} TextWalkIsWalk(c: Codec, rs: seq<Request>, f: Filter, limit: int) returns (pages: seq<Page>)
    requires Lawful(c) && IsTextWalk(c, rs, f, limit)
    ensures |pages| == |rs|
    ensures forall k :: 0 <= k < |rs| ==> Matches(c, pages[k], rs[k])
    ensures IsWalk(pages, f, PageLimit(limit), None)
    ensures IsFinished(pages) <==> rs != [] && rs[|rs| - 1].next == ""
  {
    hide IsPage, IsWalk, Lawful, Position, CursorText;
    pages := [];
    EmptyWalk(f, PageLimit(limit));
    while |pages| < |rs|
      invariant |pages| <= |rs|
      invariant forall k :: 0 <= k < |pages| ==> Matches(c, pages[k], rs[k])
      invariant IsWalk(pages, f, PageLimit(limit), None)
    {
      var p := NextPage(c, rs, f, limit, pages);
      ExtendWalk(pages, f, PageLimit(limit), p);
      pages := pages + [p];
    }
    if rs != [] { NextCursorIsNextPosition(c, pages[|rs| - 1].next); }
  }

  predicate Matches(c: Codec, p: Page, r: Request) {
    p.table == r.table && p.logs == r.logs && r.next == CursorText(c, p.next)
  }

  lemma EmptyWalk(f: Filter, limit: nat)
    requires limit > 0
    ensures IsWalk([], f, limit, None)
  {
  }

  /** The next request, as a page after those so far. */
  lemma NextPage(c: Codec, rs: seq<Request>, f: Filter, limit: int, pages: seq<Page>) returns (p: Page)
    requires Lawful(c) && IsTextWalk(c, rs, f, limit)
    requires |pages| < |rs| && forall k :: 0 <= k < |pages| ==> Matches(c, pages[k], rs[k])
    ensures Matches(c, p, rs[|pages|])
    ensures pages != [] ==> pages[|pages| - 1].next.Some?
    ensures IsPage(p.table, f, CursorAt(pages, None, |pages|), PageLimit(limit), p.logs, p.next)
  {
    hide IsPage, Lawful;
    var k := |pages|;
    var at := CursorAt(pages, None, k);
    NextCursorIsNextPosition(c, at);
    if k > 0 { assert Matches(c, pages[k - 1], rs[k - 1]); }
    assert rs[k].cursor == CursorText(c, at);
    var next :| IsPage(rs[k].table, f, at, PageLimit(limit), rs[k].logs, next) && rs[k].next == CursorText(c, next);
    p := Page(rs[k].table, rs[k].logs, next);
  }

  lemma {:induction false} ExtendWalk(pages: seq<Page>, f: Filter, limit: nat, p: Page)
    requires IsWalk(pages, f, limit, None)
    requires pages != [] ==> pages[|pages| - 1].next.Some?
    requires IsPage(p.table, f, CursorAt(pages, None, |pages|), limit, p.logs, p.next)
    ensures IsWalk(pages + [p], f, limit, None)
  {
    hide IsPage;
    var all := pages + [p];
    forall k | 0 <= k < |all|
      ensures IsPage(all[k].table, f, CursorAt(all, None, k), limit, all[k].logs, all[k].next)
    {
      if k < |pages| {
        assert all[k] == pages[k] && CursorAt(all, None, k) == CursorAt(pages, None, k);
      } else {
        assert CursorAt(all, None, k) == CursorAt(pages, None, k);
      }
    }
  }
}
