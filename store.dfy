/**
  The articles table and the REST handlers over it (server.js).  The SQLite
  table is an in-memory map from id to row plus the AUTOINCREMENT counter;
  the listing is `SELECT * FROM articles ORDER BY createdAt DESC LIMIT ? OFFSET ?`
  over it, and the three mutating routes sit behind the token gate of auth.js.
 */
module Store {
  import opened JsBuiltins
  import JsonTags
  import Auth

  /** A row of `articles`: the NOT NULL columns are plain strings, the others may be NULL. */
  datatype Article = Article(
    id: int,
    title: string,
    category: Option<string>,
    description: Option<string>,
    tags: Option<string>,      // the JSON text of the tag list, as stored
    content: string,
    readTime: Option<string>,
    createdAt: string)

  /** The `tags` value of a request body: left out, JSON null, or a list of strings. */
  datatype TagsValue = Absent | Null | List(items: seq<string>)

  /**
    A JSON request body.  A string field that is left out or null is None
    (both are bound as SQL NULL); `id` is only ever echoed back.
   */
  datatype ArticleBody = ArticleBody(
    id: Option<int>,
    title: Option<string>,
    category: Option<string>,
    description: Option<string>,
    tags: TagsValue,
    content: Option<string>,
    readTime: Option<string>,
    createdAt: Option<string>)

  datatype Cursor = Cursor(page: int, limit: int)

  /** The NOT NULL columns, in the order the table declares them. */
  datatype Column = Title | Content | CreatedAt

  datatype Reply =
    | Page(next: Option<Cursor>, previous: Option<Cursor>, results: seq<Article>)
    | Found(row: Article)
    | Created(echo: ArticleBody)
    | Updated(echo: ArticleBody)
    | Deleted
    | NotFound                        // {error: {message: 'Article not found'}}
    | StorageFailed(message: string)  // {error: {message: err.message}}
    | Denied(gate: Auth.Gate)         // answered by verifyToken

  const NotFoundMessage: string := "Article not found"

  function Status(r: Reply): int {
    match r
    case Page(_, _, _) => 200
    case Found(_) => 200
    case Created(_) => 201
    case Updated(_) => 200
    case Deleted => 204
    case NotFound => 404
    case StorageFailed(_) => 500
    case Denied(g) => Auth.GateStatus(g).GetOr(500)
  }

  function ColumnName(c: Column): string {
    match c
    case Title => "title"
    case Content => "content"
    case CreatedAt => "createdAt"
  }

  /** The message node-sqlite3 reports for a NULL bound to a NOT NULL column. */
  function NotNullMessage(c: Column): string {
    "SQLITE_CONSTRAINT: NOT NULL constraint failed: articles." + ColumnName(c)
  }

  // ---------------------------------------------------------------------
  // Rows built from a request body
  // ---------------------------------------------------------------------

  /**
    `JSON.stringify(tags)`: undefined stays undefined and is stored as NULL,
    null becomes the text "null", a list becomes its JSON text, which parses
    back to the same list.
   */
  function TagsColumn(t: TagsValue): (r: Option<string>)
    ensures r.None? <==> t.Absent?
    ensures t.List? ==> JsonTags.Decode(r.value) == Some(t.items)
    ensures t.Null? ==> r == Some("null")
  {
    match t
    case Absent => None
    case Null => Some("null")
    case List(items) => JsonTags.DecodeEncode(items); Some(JsonTags.Encode(items))
  }

  /** The first NOT NULL column an INSERT of this body would leave NULL. */
  function InsertViolation(body: ArticleBody): (c: Option<Column>)
    ensures c.None? <==> body.title.Some? && body.content.Some? && body.createdAt.Some?
    ensures c == Some(Content) ==> body.title.Some?
    ensures c == Some(CreatedAt) ==> body.title.Some? && body.content.Some?
  {
    if body.title.None? then Some(Title)
    else if body.content.None? then Some(Content)
    else if body.createdAt.None? then Some(CreatedAt)
    else None
  }

  /** The first NOT NULL column the UPDATE would set to NULL; createdAt is not among the columns it sets. */
  function UpdateViolation(body: ArticleBody): (c: Option<Column>)
    ensures c.None? <==> body.title.Some? && body.content.Some?
    ensures c != Some(CreatedAt)
  {
    if body.title.None? then Some(Title)
    else if body.content.None? then Some(Content)
    else None
  }

  /** The row the INSERT stores under the id SQLite assigns. */
  function NewRow(id: int, body: ArticleBody): (a: Article)
    requires InsertViolation(body).None?
    ensures a.id == id && a.createdAt == body.createdAt.value
    ensures Some(a.title) == body.title && Some(a.content) == body.content
    ensures a.category == body.category && a.description == body.description && a.readTime == body.readTime
    ensures a.tags.None? <==> body.tags.Absent?
    ensures body.tags.List? ==> JsonTags.Decode(a.tags.value) == Some(body.tags.items)
  {
    Article(id, body.title.value, body.category, body.description, TagsColumn(body.tags),
            body.content.value, body.readTime, body.createdAt.value)
  }

  /** The row after the UPDATE: six columns from the body, id and createdAt kept. */
  function Replaced(row: Article, body: ArticleBody): (a: Article)
    requires UpdateViolation(body).None?
    ensures a.id == row.id && a.createdAt == row.createdAt
    ensures Some(a.title) == body.title && Some(a.content) == body.content
    ensures a.category == body.category && a.description == body.description && a.readTime == body.readTime
    ensures a.tags.None? <==> body.tags.Absent?
    ensures body.tags.List? ==> JsonTags.Decode(a.tags.value) == Some(body.tags.items)
  {
    row.(title := body.title.value, category := body.category, description := body.description,
         tags := TagsColumn(body.tags), content := body.content.value, readTime := body.readTime)
  }

  /** `{ id, ...req.body }`: the body's own id, when it has one, wins over the one given. */
  function Echoed(id: int, body: ArticleBody): (e: ArticleBody)
    ensures e.id.Some?
    ensures body.id.None? ==> e.id == Some(id)
    ensures body.id.Some? ==> e == body
    ensures e == body.(id := e.id)
  {
    body.(id := Some(if body.id.Some? then body.id.value else id))
  }

  /**
    The update reply repeats the body, so it can show a createdAt other than
    the one the row keeps.
   */
  lemma UpdateEchoDiffersFromRow(row: Article, body: ArticleBody, id: int)
    requires UpdateViolation(body).None?
    requires body.createdAt.Some? && body.createdAt.value != row.createdAt
    ensures Echoed(id, body).createdAt != Some(Replaced(row, body).createdAt)
  {
  }

  // ---------------------------------------------------------------------
  // The table as a value
  // ---------------------------------------------------------------------

  /** The table's rows and the AUTOINCREMENT counter (one more than the largest id ever assigned). */
  datatype Table = Table(rows: map<int, Article>, nextId: int)

  predicate KeyedRows(rows: map<int, Article>) {
    forall k :: k in rows ==> rows[k].id == k && 1 <= k
  }

  predicate WellFormed(t: Table) {
    1 <= t.nextId && KeyedRows(t.rows) && forall k :: k in t.rows ==> k < t.nextId
  }

  /** The rows with ids 1 .. n-1 in ascending id order: the order a rowid scan visits them. */
  function Scan(rows: map<int, Article>, n: int): seq<Article>
    decreases n
  {
    if n <= 1 then [] else Scan(rows, n - 1) + (if n - 1 in rows then [rows[n - 1]] else [])
  }

  function KeysBelow(rows: map<int, Article>, n: int): set<int> {
    set k | k in rows && k < n
  }

  lemma {:induction false} ScanMembers(rows: map<int, Article>, n: int)
    requires KeyedRows(rows)
    ensures forall e :: e in Scan(rows, n) <==> e.id in rows && rows[e.id] == e && e.id < n
    decreases n
  {
    if n > 1 {
      ScanMembers(rows, n - 1);
    }
  }

  lemma {:induction false} ScanAscending(rows: map<int, Article>, n: int)
    requires KeyedRows(rows)
    ensures forall i, j :: 0 <= i < j < |Scan(rows, n)| ==> Scan(rows, n)[i].id < Scan(rows, n)[j].id
    decreases n
  {
    if n > 1 {
      ScanAscending(rows, n - 1);
      ScanMembers(rows, n - 1);
      var s := Scan(rows, n - 1);
      forall i | 0 <= i < |s| ensures s[i].id < n - 1 {
        assert s[i] in s;
      }
    }
  }

  lemma {:induction false} ScanCount(rows: map<int, Article>, n: int)
    requires KeyedRows(rows)
    ensures |Scan(rows, n)| == |KeysBelow(rows, n)|
    decreases n
  {
    if n <= 1 {
      assert KeysBelow(rows, n) == {};
    } else {
      ScanCount(rows, n - 1);
      if n - 1 in rows {
        assert KeysBelow(rows, n) == KeysBelow(rows, n - 1) + {n - 1};
      } else {
        assert KeysBelow(rows, n) == KeysBelow(rows, n - 1);
      }
    }
  }

  // ---------------------------------------------------------------------
  // ORDER BY createdAt DESC
  // ---------------------------------------------------------------------

  /** SQLite's BINARY collation on text: lexicographic by code point, a proper prefix first. */
  predicate StrLess(a: string, b: string)
    decreases |a|
  {
    if a == [] then b != []
    else b != [] && (if a[0] != b[0] then a[0] < b[0] else StrLess(a[1..], b[1..]))
  }

  lemma {:induction false} StrLessIrreflexive(a: string)
    ensures !StrLess(a, a)
    decreases |a|
  {
    if a != [] {
      StrLessIrreflexive(a[1..]);
    }
  }

  lemma {:induction false} StrLessTransitive(a: string, b: string, c: string)
    requires StrLess(a, b) && StrLess(b, c)
    ensures StrLess(a, c)
    decreases |a|
  {
    if a != [] && a[0] == b[0] && b[0] == c[0] {
      StrLessTransitive(a[1..], b[1..], c[1..]);
    }
  }

  /** Newest first: no row is followed by one with a later createdAt. */
  predicate NewestFirst(s: seq<Article>) {
    forall i, j :: 0 <= i < j < |s| ==> !StrLess(s[i].createdAt, s[j].createdAt)
  }

  predicate DistinctIds(s: seq<Article>) {
    forall i, j :: 0 <= i < j < |s| ==> s[i].id != s[j].id
  }

  /** Puts x after every row at least as new, before the first strictly older one. */
  function InsertByDate(x: Article, s: seq<Article>): seq<Article>
    decreases |s|
  {
    if s == [] then [x]
    else if StrLess(s[0].createdAt, x.createdAt) then [x] + s
    else [s[0]] + InsertByDate(x, s[1..])
  }

  /**
    Sorts newest first, keeping the scan order among rows with equal
    createdAt: a permutation of s, newest first, with ids kept distinct.
   */
  function SortByDate(s: seq<Article>): (r: seq<Article>)
    ensures multiset(r) == multiset(s)
    ensures NewestFirst(r)
    ensures DistinctIds(s) ==> DistinctIds(r)
    decreases |s|
  {
    if s == [] then []
    else
      var init, last := s[..|s| - 1], s[|s| - 1];
      var u := SortByDate(init);
      SortStep(s, init, last, u);
      InsertByDate(last, u)
  }

  lemma ConsNewestFirst(a: Article, u: seq<Article>)
    requires forall e :: e in u ==> !StrLess(a.createdAt, e.createdAt)
    requires NewestFirst(u)
    ensures NewestFirst([a] + u)
  {
    forall i, j | 0 <= i < j < |[a] + u|
      ensures !StrLess(([a] + u)[i].createdAt, ([a] + u)[j].createdAt)
    {
      if i > 0 {
        assert ([a] + u)[i] == u[i - 1] && ([a] + u)[j] == u[j - 1];
      } else {
        assert ([a] + u)[j] == u[j - 1];
        assert u[j - 1] in u;
      }
    }
  }

  lemma ConsDistinct(a: Article, u: seq<Article>)
    requires forall e :: e in u ==> e.id != a.id
    requires DistinctIds(u)
    ensures DistinctIds([a] + u)
  {
    forall i, j | 0 <= i < j < |[a] + u|
      ensures ([a] + u)[i].id != ([a] + u)[j].id
    {
      if i > 0 {
        assert ([a] + u)[i] == u[i - 1] && ([a] + u)[j] == u[j - 1];
      } else {
        assert ([a] + u)[j] == u[j - 1];
        assert u[j - 1] in u;
      }
    }
  }

  lemma {:induction false} InsertByDatePerm(x: Article, s: seq<Article>)
    ensures multiset(InsertByDate(x, s)) == multiset(s) + multiset{x}
    ensures forall e :: e in InsertByDate(x, s) <==> e == x || e in s
    decreases |s|
  {
    if s != [] && !StrLess(s[0].createdAt, x.createdAt) {
      InsertByDatePerm(x, s[1..]);
      assert s == [s[0]] + s[1..];
    }
    forall e ensures e in InsertByDate(x, s) <==> e == x || e in s {
      assert e in InsertByDate(x, s) <==> e in multiset(InsertByDate(x, s));
    }
  }

  lemma StrLessAsymmetric(a: string, b: string)
    requires StrLess(a, b)
    ensures !StrLess(b, a)
  {
    if StrLess(b, a) {
      StrLessTransitive(a, b, a);
      StrLessIrreflexive(a);
    }
  }

  lemma NotLessChain(a: string, b: string, c: string)
    requires StrLess(a, b) && !StrLess(a, c)
    ensures !StrLess(b, c)
  {
    if StrLess(b, c) {
      StrLessTransitive(a, b, c);
    }
  }

  /** A row older than x is older than everything x may precede. */
  lemma OlderThanAll(x: Article, s: seq<Article>)
    requires s != [] && StrLess(s[0].createdAt, x.createdAt) && NewestFirst(s)
    ensures forall e :: e in s ==> !StrLess(x.createdAt, e.createdAt)
  {
    forall e | e in s ensures !StrLess(x.createdAt, e.createdAt) {
      var j :| 0 <= j < |s| && s[j] == e;
      if j == 0 {
        StrLessAsymmetric(s[0].createdAt, x.createdAt);
      } else {
        NotLessChain(s[0].createdAt, x.createdAt, e.createdAt);
      }
    }
  }

  lemma {:induction false} InsertByDateSorted(x: Article, s: seq<Article>)
    requires NewestFirst(s)
    ensures NewestFirst(InsertByDate(x, s))
    decreases |s|
  {
    if s == [] {
    } else if StrLess(s[0].createdAt, x.createdAt) {
      OlderThanAll(x, s);
      ConsNewestFirst(x, s);
    } else {
      var u := InsertByDate(x, s[1..]);
      InsertByDateSorted(x, s[1..]);
      InsertByDatePerm(x, s[1..]);
      forall e | e in u ensures !StrLess(s[0].createdAt, e.createdAt) {
        if e != x {
          var j :| 0 <= j < |s[1..]| && s[1..][j] == e;
          assert s[j + 1] == e;
        }
      }
      ConsNewestFirst(s[0], u);
    }
  }

  lemma {:induction false} InsertByDateDistinct(x: Article, s: seq<Article>)
    requires DistinctIds(s) && forall e :: e in s ==> e.id != x.id
    ensures DistinctIds(InsertByDate(x, s))
    decreases |s|
  {
    if s == [] {
    } else if StrLess(s[0].createdAt, x.createdAt) {
      ConsDistinct(x, s);
    } else {
      var u := InsertByDate(x, s[1..]);
      InsertByDateDistinct(x, s[1..]);
      InsertByDatePerm(x, s[1..]);
      forall e | e in u ensures e.id != s[0].id {
        if e != x {
          var j :| 0 <= j < |s[1..]| && s[1..][j] == e;
          assert s[j + 1] == e;
        } else {
          assert s[0] in s;
        }
      }
      ConsDistinct(s[0], u);
    }
  }

  /** One step of the sort: inserting the last row into the sorted rest keeps all three facts. */
  lemma SortStep(s: seq<Article>, init: seq<Article>, last: Article, u: seq<Article>)
    requires s == init + [last]
    requires multiset(u) == multiset(init) && NewestFirst(u) && (DistinctIds(init) ==> DistinctIds(u))
    ensures multiset(InsertByDate(last, u)) == multiset(s)
    ensures NewestFirst(InsertByDate(last, u))
    ensures DistinctIds(s) ==> DistinctIds(InsertByDate(last, u))
  {
    if DistinctIds(s) {
      assert DistinctIds(init) by {
        forall i, j | 0 <= i < j < |init| ensures init[i].id != init[j].id {
          assert init[i] == s[i] && init[j] == s[j];
        }
      }
      forall e | e in u ensures e.id != last.id {
        assert e in multiset(init);
        var j :| 0 <= j < |init| && init[j] == e;
        assert s[j] == e && s[|init|] == last;
      }
      InsertByDateDistinct(last, u);
    }
    InsertByDatePerm(last, u);
    InsertByDateSorted(last, u);
  }

  /** The table in listing order: the scanned rows, newest first. */
  function Ordered(t: Table): (r: seq<Article>)
    ensures multiset(r) == multiset(Scan(t.rows, t.nextId))
    ensures NewestFirst(r)
  {
    SortByDate(Scan(t.rows, t.nextId))
  }

  /** The listing holds every row of the table exactly once, newest first. */
  lemma OrderedIsTable(t: Table)
    requires WellFormed(t)
    ensures NewestFirst(Ordered(t))
    ensures forall e :: e in Ordered(t) <==> e.id in t.rows && t.rows[e.id] == e
    ensures DistinctIds(Ordered(t))
    ensures |Ordered(t)| == |t.rows|
  {
    var s := Scan(t.rows, t.nextId);
    ScanMembers(t.rows, t.nextId);
    ScanAscending(t.rows, t.nextId);
    ScanCount(t.rows, t.nextId);
    assert KeysBelow(t.rows, t.nextId) == t.rows.Keys;
    SameElements(Ordered(t), s);
  }

  /** Two sequences with the same multiset have the same length and the same members. */
  lemma SameElements(a: seq<Article>, b: seq<Article>)
    requires multiset(a) == multiset(b)
    ensures |a| == |b|
    ensures forall e :: e in a <==> e in b
  {
    assert |multiset(a)| == |multiset(b)|;
    forall e ensures e in a <==> e in b {
      assert e in a <==> e in multiset(a);
    }
  }

  // ---------------------------------------------------------------------
  // GET /api/articles
  // ---------------------------------------------------------------------

  /** Where the window starts: a negative OFFSET counts as 0. */
  function WindowStart(n: nat, offset: int): (i: nat)
    ensures i <= n
  {
    if offset < 0 then 0 else if offset > n then n else offset
  }

  /** Where the window ends: a negative LIMIT means no limit. */
  function WindowEnd(n: nat, start: nat, limit: int): (j: nat)
    requires start <= n
    ensures start <= j <= n
  {
    if limit < 0 || start + limit > n then n else start + limit
  }

  /** LIMIT ? OFFSET ? over the ordered rows. */
  function Window(s: seq<Article>, limit: int, offset: int): (r: seq<Article>)
    ensures limit >= 0 ==> |r| <= limit
    ensures offset <= 0 && (limit < 0 || |s| <= limit) ==> r == s
  {
    var start := WindowStart(|s|, offset);
    s[start..WindowEnd(|s|, start, limit)]
  }

  /** With non-negative arguments the window skips `offset` rows and takes the next ones, at most `limit`. */
  lemma WindowSkipsAndTakes(s: seq<Article>, limit: int, offset: int)
    requires limit >= 0 && offset >= 0
    ensures |Window(s, limit, offset)| == (if offset >= |s| then 0 else if |s| - offset < limit then |s| - offset else limit)
    ensures forall k :: 0 <= k < |Window(s, limit, offset)| ==> Window(s, limit, offset)[k] == s[offset + k]
  {
    var start := WindowStart(|s|, offset);
    var r := s[start..WindowEnd(|s|, start, limit)];
    assert Window(s, limit, offset) == r;
    if offset < |s| {
      assert start == offset;
    }
  }

  /** The handler's reply for the raw `page` and `limit` query values. */
  function ListArticles(t: Table, pageParam: Option<string>, limitParam: Option<string>): (r: Reply)
    requires WellFormed(t)
    ensures r.Page?
    ensures var page, limit := ParseIntOr(pageParam, 1), ParseIntOr(limitParam, 6);
      var offset := (page - 1) * limit;
      && r.results == Window(Ordered(t), limit, offset)
      && (r.next.Some? <==> offset + limit < |t.rows|)
      && (r.next.Some? ==> r.next.value == Cursor(page + 1, limit))
      && (r.previous.Some? <==> offset > 0)
      && (r.previous.Some? ==> r.previous.value == Cursor(page - 1, limit))
  {
    var page := ParseIntOr(pageParam, 1);
    var limit := ParseIntOr(limitParam, 6);
    var offset := (page - 1) * limit;
    var count := |t.rows|;
    Page(if offset + limit < count then Some(Cursor(page + 1, limit)) else None,
         if offset > 0 then Some(Cursor(page - 1, limit)) else None,
         Window(Ordered(t), limit, offset))
  }

  /** Without query parameters the first six rows are listed, newest first. */
  lemma DefaultPage(t: Table)
    requires WellFormed(t)
    ensures ListArticles(t, None, None).results == Window(Ordered(t), 6, 0)
    ensures ListArticles(t, None, None).previous.None?
    ensures ListArticles(t, None, None).next.Some? <==> 6 < |t.rows|
  {
  }

  /** Pages 1 .. k of width `limit`, one after another. */
  function Pages(s: seq<Article>, limit: int, k: int): seq<Article>
    decreases k
  {
    if k <= 0 then [] else Pages(s, limit, k - 1) + Window(s, limit, (k - 1) * limit)
  }

  function PageCount(n: nat, limit: int): int
    requires limit >= 1
  {
    (n + limit - 1) / limit
  }

  lemma MulMonotone(a: int, b: int, l: int)
    requires a <= b && l >= 0
    ensures a * l <= b * l
  {
    assert b * l - a * l == (b - a) * l;
  }

  lemma {:induction false} PagesArePrefix(s: seq<Article>, limit: int, k: int)
    requires limit >= 1 && k >= 0
    ensures Pages(s, limit, k) == s[..if k * limit < |s| then k * limit else |s|]
    decreases k
  {
    if k > 0 {
      PagesArePrefix(s, limit, k - 1);
      assert (k - 1) * limit == k * limit - limit;
      MulMonotone(0, k - 1, limit);
    }
  }

  /** ceil(n / limit) pages are just enough: the last one reaches row n and the one before does not. */
  lemma PageCountBounds(n: nat, limit: int, page: int)
    requires limit >= 1
    ensures page >= PageCount(n, limit) ==> page * limit >= n
    ensures page < PageCount(n, limit) ==> page * limit < n
  {
    var k := PageCount(n, limit);
    var rem := (n + limit - 1) % limit;
    assert k * limit + rem == n + limit - 1;
    if page >= k {
      MulMonotone(k, page, limit);
    } else {
      MulMonotone(page, k - 1, limit);
      assert (k - 1) * limit == k * limit - limit;
    }
  }

  /**
    Pages 1 .. ceil(N / limit) of the listing, read one after another, are the
    whole table newest first: every row once, none twice.
   */
  lemma PagesCoverTable(t: Table, limit: int)
    requires WellFormed(t) && limit >= 1
    ensures Pages(Ordered(t), limit, PageCount(|t.rows|, limit)) == Ordered(t)
    ensures NewestFirst(Ordered(t)) && DistinctIds(Ordered(t))
    ensures forall e :: e in Ordered(t) <==> e.id in t.rows && t.rows[e.id] == e
  {
    OrderedIsTable(t);
    PagesCoverListing(Ordered(t), limit);
  }

  /** Reading ceil(|s| / limit) pages of s one after another gives back s. */
  lemma PagesCoverListing(s: seq<Article>, limit: int)
    requires limit >= 1
    ensures Pages(s, limit, PageCount(|s|, limit)) == s
  {
    var k := PageCount(|s|, limit);
    assert k >= 0;
    PageCountBounds(|s|, limit, k);
    PagesArePrefix(s, limit, k);
  }

  lemma NextIffBeforeLast(n: nat, page: int, limit: int)
    requires limit >= 1
    ensures (page - 1) * limit + limit < n <==> page < PageCount(n, limit)
  {
    assert (page - 1) * limit + limit == page * limit;
    PageCountBounds(n, limit, page);
  }

  lemma ParamsOfRendered(page: int, limit: int)
    requires page != 0 && limit != 0
    ensures ParseIntOr(Some(IntToString(page)), 1) == page
    ensures ParseIntOr(Some(IntToString(limit)), 6) == limit
  {
    ParseIntOfRendered(page, []);
    ParseIntOfRendered(limit, []);
    assert IntToString(page) + [] == IntToString(page);
    assert IntToString(limit) + [] == IntToString(limit);
  }

  lemma NextOfParams(t: Table, pageParam: Option<string>, limitParam: Option<string>, page: int, limit: int)
    requires WellFormed(t) && ParseIntOr(pageParam, 1) == page && ParseIntOr(limitParam, 6) == limit
    ensures ListArticles(t, pageParam, limitParam).next.Some? <==> (page - 1) * limit + limit < |t.rows|
  {
  }

  /**
    Asked for page `page` of width `limit` (written as decimal numbers), the
    reply has a next cursor exactly on the pages before the last.
   */
  lemma NextOnlyBeforeLastPage(t: Table, page: int, limit: int)
    requires WellFormed(t) && page >= 1 && limit >= 1
    ensures ListArticles(t, Some(IntToString(page)), Some(IntToString(limit))).next.None?
      <==> page >= PageCount(|t.rows|, limit)
  {
    ParamsOfRendered(page, limit);
    NextOfParams(t, Some(IntToString(page)), Some(IntToString(limit)), page, limit);
    NextIffBeforeLast(|t.rows|, page, limit);
  }

  lemma ResultsOfParams(t: Table, pageParam: Option<string>, limitParam: Option<string>, page: int, limit: int)
    requires WellFormed(t) && ParseIntOr(pageParam, 1) == page && ParseIntOr(limitParam, 6) == limit
    ensures ListArticles(t, pageParam, limitParam).results == Window(Ordered(t), limit, (page - 1) * limit)
  {
  }

  /** The `page` and `limit` query values of one GET /api/articles request. */
  type Query = (Option<string>, Option<string>)

  /** The results of the requests, one after another. */
  function ListedPages(t: Table, requests: seq<Query>): seq<Article>
    requires WellFormed(t)
    decreases |requests|
  {
    if requests == [] then []
    else
      var last := requests[|requests| - 1];
      ListedPages(t, requests[..|requests| - 1]) + ListArticles(t, last.0, last.1).results
  }

  /** Request i reads as page i + 1 of width limit. */
  predicate AsksPages(requests: seq<Query>, limit: int) {
    forall i :: 0 <= i < |requests| ==>
      ParseIntOr(requests[i].0, 1) == i + 1 && ParseIntOr(requests[i].1, 6) == limit
  }

  lemma {:induction false} ListedPagesArePages(t: Table, requests: seq<Query>, limit: int)
    requires WellFormed(t) && limit >= 1 && AsksPages(requests, limit)
    ensures ListedPages(t, requests) == Pages(Ordered(t), limit, |requests|)
    decreases |requests|
  {
    if requests != [] {
      var init, last := requests[..|requests| - 1], requests[|requests| - 1];
      assert AsksPages(init, limit);
      ListedPagesArePages(t, init, limit);
      ResultsOfParams(t, last.0, last.1, |requests|, limit);
    }
  }

  lemma DecimalQuery(q: Query, page: int, limit: int)
    requires page != 0 && limit != 0
    requires q == (Some(IntToString(page)), Some(IntToString(limit)))
    ensures ParseIntOr(q.0, 1) == page && ParseIntOr(q.1, 6) == limit
  {
    ParamsOfRendered(page, limit);
  }

  /** Pages 1, 2, ... of width limit, written in decimal. */
  function DecimalRequests(k: nat, limit: int): (r: seq<Query>)
    requires limit != 0
    ensures |r| == k && AsksPages(r, limit)
  {
    var r := seq(k, i requires 0 <= i < k => (Some(IntToString(i + 1)), Some(IntToString(limit))));
    assert AsksPages(r, limit) by {
      forall i | 0 <= i < k
        ensures ParseIntOr(r[i].0, 1) == i + 1 && ParseIntOr(r[i].1, 6) == limit
      {
        DecimalQuery(r[i], i + 1, limit);
      }
    }
    r
  }

  /**
    Requesting pages 1 .. ceil(N / limit) through the handler and reading the
    results one after another gives the whole table, newest first.
   */
  lemma ListingCoversTable(t: Table, requests: seq<Query>, limit: int)
    requires WellFormed(t) && limit >= 1 && AsksPages(requests, limit)
    requires |requests| == PageCount(|t.rows|, limit)
    ensures ListedPages(t, requests) == Ordered(t)
  {
    ListedPagesArePages(t, requests, limit);
    PagesCoverTable(t, limit);
  }

  /** In particular the page's own requests, ?page=1&limit=L up to the last page, cover the table. */
  lemma DecimalListingCoversTable(t: Table, limit: int)
    requires WellFormed(t) && limit >= 1
    ensures PageCount(|t.rows|, limit) >= 0
    ensures ListedPages(t, DecimalRequests(PageCount(|t.rows|, limit), limit)) == Ordered(t)
  {
    ListingCoversTable(t, DecimalRequests(PageCount(|t.rows|, limit), limit), limit);
  }

  // ---------------------------------------------------------------------
  // GET /api/articles/:id
  // ---------------------------------------------------------------------

  /** `parseInt(req.params.id)` names the row; NaN matches none. */
  function FindArticle(t: Table, idParam: string): (r: Reply)
    requires WellFormed(t)
    ensures r.Found? || r == NotFound
    ensures r.Found? <==> ParseInt(idParam).Some? && ParseInt(idParam).value in t.rows
    ensures r.Found? ==> r.row == t.rows[ParseInt(idParam).value] && r.row.id == ParseInt(idParam).value
  {
    match ParseInt(idParam)
    case Some(id) => if id in t.rows then Found(t.rows[id]) else NotFound
    case None => NotFound
  }

  /** A row is found again by its id written in decimal, trailing text after the number ignored. */
  lemma FindById(t: Table, id: int, suffix: string)
    requires WellFormed(t) && id in t.rows
    requires EndsNumber(id, suffix)
    ensures FindArticle(t, IntToString(id) + suffix) == Found(t.rows[id])
  {
    ParseIntOfRendered(id, suffix);
  }

  /** The table after Create has inserted body under the next id. */
  function Inserted(t: Table, body: ArticleBody): Table
    requires InsertViolation(body).None?
  {
    Table(t.rows[t.nextId := NewRow(t.nextId, body)], t.nextId + 1)
  }

  lemma InsertedWellFormed(t: Table, body: ArticleBody)
    requires WellFormed(t) && InsertViolation(body).None?
    ensures WellFormed(Inserted(t, body))
  {
    assert NewRow(t.nextId, body).id == t.nextId;
  }

  /** GET /api/articles/:id right after a create finds the row just stored. */
  lemma CreateThenGet(t: Table, body: ArticleBody)
    requires WellFormed(t) && InsertViolation(body).None?
    ensures WellFormed(Inserted(t, body))
    ensures FindArticle(Inserted(t, body), IntToString(t.nextId)) == Found(NewRow(t.nextId, body))
  {
    InsertedWellFormed(t, body);
    FindById(Inserted(t, body), t.nextId, []);
    assert IntToString(t.nextId) + [] == IntToString(t.nextId);
  }

  /** GET /api/articles/:id right after a delete of that id answers 404. */
  lemma DeleteThenGet(t: Table, id: int)
    requires WellFormed(t)
    ensures WellFormed(Table(t.rows - {id}, t.nextId))
    ensures FindArticle(Table(t.rows - {id}, t.nextId), IntToString(id)) == NotFound
  {
    ParseIntOfRendered(id, []);
    assert IntToString(id) + [] == IntToString(id);
  }

  // ---------------------------------------------------------------------
  // The table as the server holds it
  // ---------------------------------------------------------------------

  class ArticleTable {
    var rows: map<int, Article>
    var nextId: int
    /** Every id ever assigned, including those of deleted rows. */
    ghost var issued: set<int>

    ghost predicate Valid()
      reads this
    {
      WellFormed(Table(rows, nextId)) && forall k :: k in issued <==> 1 <= k < nextId
    }

    function State(): Table
      reads this
    {
      Table(rows, nextId)
    }

    /** CREATE TABLE on a new database file. */
    constructor ()
      ensures Valid() && rows == map[] && nextId == 1 && issued == {}
    {
      rows := map[];
      nextId := 1;
      issued := {};
    }

    /** POST /api/articles. */
    method Create(header: Option<string>, verify: string -> Option<Auth.Claims>, body: ArticleBody)
      returns (reply: Reply)
      requires Valid()
      modifies this
      ensures Valid()
      ensures var gate := Auth.VerifyToken(header, verify);
        !gate.Proceed? ==> reply == Denied(gate) && unchanged(this)
      ensures Auth.VerifyToken(header, verify).Proceed? && InsertViolation(body).Some? ==>
        reply == StorageFailed(NotNullMessage(InsertViolation(body).value)) && unchanged(this)
      ensures Auth.VerifyToken(header, verify).Proceed? && InsertViolation(body).None? ==>
        var id := old(nextId);
        && id !in old(issued)
        && (forall k :: k in old(issued) ==> k < id)
        && rows == old(rows)[id := NewRow(id, body)]
        && issued == old(issued) + {id}
        && nextId == id + 1
        && reply == Created(Echoed(id, body))
    {
      var gate := Auth.VerifyToken(header, verify);
      if !gate.Proceed? {
        return Denied(gate);
      }
      var violation := InsertViolation(body);
      if violation.Some? {
        return StorageFailed(NotNullMessage(violation.value));
      }
      var id := nextId;
      InsertedWellFormed(State(), body);
      rows := rows[id := NewRow(id, body)];
      nextId := id + 1;
      issued := issued + {id};
      reply := Created(Echoed(id, body));
    }

    /** PUT /api/articles/:id. */
    method Update(header: Option<string>, verify: string -> Option<Auth.Claims>, idParam: string, body: ArticleBody)
      returns (reply: Reply)
      requires Valid()
      modifies this
      ensures Valid() && nextId == old(nextId) && issued == old(issued)
      ensures var gate := Auth.VerifyToken(header, verify);
        !gate.Proceed? ==> reply == Denied(gate) && rows == old(rows)
      ensures Auth.VerifyToken(header, verify).Proceed? ==>
        var id := ParseInt(idParam);
        if id.None? || id.value !in old(rows) then
          reply == NotFound && rows == old(rows)
        else if UpdateViolation(body).Some? then
          reply == StorageFailed(NotNullMessage(UpdateViolation(body).value)) && rows == old(rows)
        else
          rows == old(rows)[id.value := Replaced(old(rows)[id.value], body)]
          && reply == Updated(Echoed(id.value, body))
    {
      var gate := Auth.VerifyToken(header, verify);
      if !gate.Proceed? {
        return Denied(gate);
      }
      var id := ParseInt(idParam);
      if id.None? || id.value !in rows {
        return NotFound;
      }
      var violation := UpdateViolation(body);
      if violation.Some? {
        return StorageFailed(NotNullMessage(violation.value));
      }
      rows := rows[id.value := Replaced(rows[id.value], body)];
      reply := Updated(Echoed(id.value, body));
    }

    /** DELETE /api/articles/:id. */
    method Delete(header: Option<string>, verify: string -> Option<Auth.Claims>, idParam: string)
      returns (reply: Reply)
      requires Valid()
      modifies this
      ensures Valid() && nextId == old(nextId) && issued == old(issued)
      ensures var gate := Auth.VerifyToken(header, verify);
        !gate.Proceed? ==> reply == Denied(gate) && rows == old(rows)
      ensures Auth.VerifyToken(header, verify).Proceed? ==>
        var id := ParseInt(idParam);
        if id.None? || id.value !in old(rows) then
          reply == NotFound && rows == old(rows)
        else
          reply == Deleted && rows == old(rows) - {id.value}
    {
      var gate := Auth.VerifyToken(header, verify);
      if !gate.Proceed? {
        return Denied(gate);
      }
      var id := ParseInt(idParam);
      if id.None? || id.value !in rows {
        return NotFound;
      }
      rows := rows - {id.value};
      reply := Deleted;
    }
  }
}
