# Tomato blog: articles, admin gate, editor and search, in Dafny

This project models the logic at the heart of a small blog for engineering
notes. The server keeps an SQLite table of articles. It lists them newest
first, one page at a time. It creates, updates and deletes them behind a
bearer-token gate. Two browser scripts use it:

- the admin editor, which builds tag lists, switches between add and edit
  mode and submits the form;
- the public home page, which guesses a semester from an article's category,
  renders tag chips and searches the list.

The model is split into six modules:

- `JsBuiltins` (`js_builtins.dfy`): the JavaScript built-ins the code relies on.
  These are `String.prototype.trim`, `toLowerCase`, `includes`, `split(' ')`,
  `parseInt` and decimal number-to-string. Each comes with the round-trip
  lemmas the other modules need.
- `JsonTags` (`json_tags.dfy`): `JSON.stringify` of a list of strings and a
  decoder for the JSON text of such a list (RFC 8259). Their round trip is
  proved for every list.
- `Auth` (`auth.js`, in `auth.dfy`): the login check and the token gate. They
  are pure functions returning an outcome. Signing and verifying a JSON Web
  Token (RFC 7519) are function parameters.
- `Store` (`server.js`, in `store.dfy`): the table as a map from id to row plus
  the AUTOINCREMENT counter. The listing is
  `ORDER BY createdAt DESC LIMIT ? OFFSET ?` with its cursors, and has lemmas
  about paging through the whole table. The class `ArticleTable` has `Create`,
  `Update` and `Delete` methods that change the map in place.
- `Editor` (`public/js/admin.js`, in `editor.dfy`): the class `Editor` holding
  `contentData`, `currentEditId`, `currentTags` and the form fields. It has
  methods for loading, `addTag`, `removeTag`, `editContent`, `resetForm`,
  the state after the server answers a save, and the dashboard counts. The
  form submission is a function that returns the request the page would
  send.
- `Home` (`public/js/main.js`, in `home.dfy`):
  - `getSemester`;
  - tag normalisation and the "+k more" chips;
  - the search predicate and filter, with JavaScript exceptions as an
    explicit `Thrown` outcome;
  - the in-place sort by id, newest first, on an `array`;
  - the class `HomePage` holding `allArticles` and `filteredArticles`.

Three behaviours of the code are worth stating, because the model keeps
them as the code has them:

- **Title and content.** The table declares them `NOT NULL`
  (server.js:26-32) and nothing else checks them, so an empty title is
  stored; only a missing one fails.
- **Tags from `GET /api/articles/:id`.** The handler answers the stored row
  as it is (server.js:73-80), so `tags` is the JSON text written by the
  create or update, not a list. The model's `FindArticle` does the same, and
  the list is recovered by the client's parse (`Editor.StoredTagsRoundTrip`,
  `Home.RowTagsNormalize`, `Editor.CreateThenGetTags`).
- **Error bodies.** The article routes answer `{error: {message}}`
  (server.js:49-133), while the login and the token gate answer
  `{message: ...}` (auth.js:21-41). The model keeps them as separate reply
  kinds.

## Model

| member | source | states |
|---|---|---|
| JsBuiltins.TrimStart | public/js/admin.js:277 | the result is a suffix of the input; everything dropped is whitespace; the result does not start with whitespace |
| JsBuiltins.TrimEnd | public/js/admin.js:277 | the result is a prefix of the input; everything dropped is whitespace; the result does not end with whitespace |
| JsBuiltins.Trim | public/js/admin.js:277 | `trim()` leaves no whitespace at either end and leaves already-trimmed text unchanged (also used by the search box, public/js/main.js:99) |
| JsBuiltins.TrimPadded | public/js/admin.js:277 | `trim()` of text padded with whitespace on both sides is that text, for any padding |
| JsBuiltins.TrimSplits | public/js/admin.js:277 | every string is its `trim()` with whitespace before and after; with TrimPadded this determines `trim()` completely |
| JsBuiltins.Lower | public/js/admin.js:277 | `toLowerCase()` keeps the length and maps each character on its own |
| JsBuiltins.LowerIsLower | public/js/admin.js:277 | lowercased text has no capital letter, and lowercasing lowercase text changes nothing |
| JsBuiltins.LowerKeepsTrimmed | public/js/admin.js:277 | lowercasing trimmed text keeps it trimmed |
| JsBuiltins.TrimKeepsLower | public/js/main.js:99 | trimming lowercase text keeps it lowercase |
| JsBuiltins.IncludesIff | public/js/main.js:37 | `includes(q)` holds iff q occurs at some index |
| JsBuiltins.Split | auth.js:33 | `split(' ')` gives at least one field and no field contains a space |
| JsBuiltins.SplitJoin | auth.js:33 | joining the fields of `split(' ')` with spaces gives back the header |
| JsBuiltins.SplitFirstWord | auth.js:33 | a word followed by a space is the first field and the rest splits on its own |
| JsBuiltins.ParseIntOr | server.js:41-42 | `parseInt(x) \|\| d`: d when x is missing, not a number or 0, otherwise the parsed number |
| JsBuiltins.ParseIntShape | server.js:72 | `parseInt`: empty or all-whitespace text is NaN; a negative result needs a minus sign after the leading whitespace; text whose first non-space character is a digit, not starting "0x", is a non-negative number (also used at server.js:41-42 and public/js/admin.js:231) |
| JsBuiltins.IntToString | public/js/admin.js:112 | the decimal rendering starts with a minus iff the number is negative, is otherwise made of digits, and has no leading zero unless the number is 0 |
| JsBuiltins.ParseIntOfLetter | public/js/admin.js:231 | text whose first non-space character is a letter that cannot start "0x" parses to NaN |
| JsBuiltins.ParseIntOfRendered | server.js:72 | `parseInt` of the decimal rendering of n followed by any text is n, as long as the text does not start with a digit, nor, after the rendering "0", with x or X |
| JsBuiltins.DigitSuffixExtends | server.js:72 | the first exclusion is needed: "5" followed by "3" reads as 53 |
| JsBuiltins.HexSuffixAfterZero | server.js:72 | the second exclusion is needed: "0" followed by "x1" reads as the hex number 1 |
| JsonTags.Encode | server.js:88 | `JSON.stringify` of a list is bracketed text |
| JsonTags.DecodeEmpty | server.js:88 | the text of the empty list parses to the empty list |
| JsonTags.EscapeBodyRoundTrip | server.js:88 | an escaped string body followed by a closing quote parses back to the same string |
| JsonTags.Decode | public/js/admin.js:87 | `JSON.parse` accepts a list only when its text, after JSON whitespace, starts with "["; empty or all-whitespace text throws (the same parse serves public/js/main.js:65) |
| JsonTags.DecodeNullable | public/js/admin.js:87 | `JSON.parse` gives null iff the text is the literal null with JSON whitespace around it, and otherwise agrees with the list decoder; null is never a list |
| JsonTags.NullPadded | public/js/admin.js:87 | " null", "null\n" and any other JSON whitespace around null parse to null |
| JsonTags.DecodeEncode | server.js:88 | `JSON.parse(JSON.stringify(tags))` gives back `tags` for every list of strings |
| Auth.IssuedClaims | auth.js:18 | a token's expiry is 8 hours after its issue time |
| Auth.Login | auth.js:9-23 | invalid credentials iff either field is not strictly equal to its configured value (a missing field matches only an unset value); a token is the signature of the submitted username's claims; signing failure is the only other outcome |
| Auth.TokenOf | auth.js:32-33 | the token taken from the header never contains a space; no header gives no token; an empty header is falsy and is itself the token |
| Auth.VerifyToken | auth.js:31-46 | 401 iff there is no header or a non-empty header has no second field; 403 iff the token is empty (including an empty header) or the verifier rejects it; otherwise the request proceeds with the verifier's decoded payload |
| Auth.TokenIsSecondField | auth.js:33 | in "word token rest" the token is what the gate sees iff the token is followed by nothing or by a space |
| Auth.FirstWordIgnored | auth.js:32-33 | any two first words give the same gate outcome: "Bearer" is never checked |
| Auth.OneWordHeader | auth.js:33-37 | a non-empty header with no space is answered 401 |
| Auth.LoginThenVerify | auth.js:9-46 | a token issued by a successful login, sent as "Bearer token", passes a verifier that accepts what the signer signs, with the configured username and an expiry 8 hours on |
| Store.TagsColumn | server.js:88 | absent tags are stored as NULL, null as the text "null", and a list as text that parses back to the same list |
| Store.InsertViolation | server.js:24-33 | the INSERT fails iff title, content or createdAt is missing, and it reports the first of them in column order |
| Store.UpdateViolation | server.js:103-111 | the UPDATE fails iff title or content is missing; createdAt is never among the columns it sets |
| Store.NewRow | server.js:87-92 | the inserted row has the given id, the body's title, content and createdAt, its category, description and readTime (NULL where the body has none), and tags whose text parses back to the posted list |
| Store.Replaced | server.js:103-111 | the updated row keeps its id and createdAt and takes the other six columns from the body |
| Store.Echoed | server.js:96 | the reply is the body with an id, and a body's own id wins over the assigned one; every other field is the body's |
| Store.UpdateEchoDiffersFromRow | server.js:116 | the update reply can show a createdAt that differs from the one the row keeps |
| Store.ScanCount | server.js:45 | the rowid scan visits as many rows as the table holds below the counter |
| Store.StrLessTransitive | server.js:45 | BINARY text order is transitive |
| Store.InsertByDateSorted | server.js:45 | inserting a row into a newest-first list keeps it newest first |
| Store.SortByDate | server.js:45 | the sort is a permutation, newest first, and keeps ids distinct |
| Store.Ordered | server.js:45 | the listing order is the rowid scan of the table, permuted to newest first |
| Store.OrderedIsTable | server.js:45 | the ordered rows are newest first, each row of the table exactly once and nothing else |
| Store.Window | server.js:45 | LIMIT caps the window, and no offset with no limit returns all rows |
| Store.WindowSkipsAndTakes | server.js:43-47 | LIMIT l OFFSET o skips o rows and takes the next min(l, remaining) |
| Store.ListArticles | server.js:40-68 | the results are the window of the table in listing order at offset (page-1)*limit, with page and limit falling back to 1 and 6; `next` is {page+1, limit} iff offset+limit < count; `previous` is {page-1, limit} iff offset > 0 |
| Store.DefaultPage | server.js:41-42 | without parameters the first six rows are listed, with no previous cursor and a next one iff there are more than six rows |
| Store.PageCountBounds | server.js:56 | ceil(N/L) pages reach row N and one page fewer does not |
| Store.PagesCoverListing | server.js:43-62 | ceil(N/L) pages of width L of an N-row listing, read in order, give back the listing |
| Store.PagesCoverTable | server.js:43-62 | pages 1..ceil(N/L), read in order, are exactly the table newest first, each row once; rows with equal createdAt (dates have day granularity, public/js/admin.js:115) appear in ascending id order, the tie order noted under Left out |
| Store.ListedPagesArePages | server.js:40-68 | the results of requests whose parameters read as pages 1..k of width L, one after another, are those k pages of the ordered table |
| Store.ListingCoversTable | server.js:40-68 | asking the handler for pages 1..ceil(N/L), however the numbers are written, and reading the results in order gives the whole table newest first; this relies on the deterministic ascending-id order among equal createdAt values |
| Store.DecimalListingCoversTable | server.js:40-68 | in particular `?page=1&limit=L` up to the last page covers the table, under the same tie order |
| Store.NextOnlyBeforeLastPage | server.js:56-58 | asked for a page by number, the reply has no next cursor iff it is the last page or beyond |
| Store.FindArticle | server.js:71-83 | the row whose id is `parseInt` of the parameter, or 404 when there is none or the parameter is not a number |
| Store.FindById | server.js:72-78 | a row is found by its id in decimal followed by any suffix that `parseInt` does not read on with: one that starts neither with a digit nor, after the id 0, with x or X (so "/5abc" finds row 5) |
| Store.CreateThenGet | server.js:71-98 | after a create, `GET /api/articles/<new id>` finds exactly the row just stored |
| Store.DeleteThenGet | server.js:124-136 | after deleting an id, `GET /api/articles/<id>` answers 404 |
| Store.ArticleTable.constructor | server.js:24-33 | a new table is empty, and the first id it hands out is 1 |
| Store.ArticleTable.Create | server.js:86-98 | the gate's refusal and NOT NULL failures change nothing; otherwise the new row is stored under an id above every id ever assigned, and the reply echoes the body with that id |
| Store.ArticleTable.Update | server.js:101-121 | the gate's refusal, an unknown id and NOT NULL failures leave the rows as they were; otherwise only that row is replaced (id and createdAt kept) and the body is echoed |
| Store.ArticleTable.Delete | server.js:124-136 | the gate's refusal and an unknown id leave the rows as they were; otherwise exactly that row is removed and the reply is 204 |
| Editor.ParseTags | public/js/admin.js:87 | NULL or empty tags text gives [], the literal null (with any JSON whitespace around it) gives null, and other text gives its JSON list or throws |
| Editor.StoredTagsRoundTrip | public/js/admin.js:87 | tags stored by the server parse back to the posted list |
| Editor.CreateThenGetTags | public/js/admin.js:87 | tags posted in a create are read back by the editor, from `GET /api/articles/<new id>`, as the same list |
| Editor.ParseAll | public/js/admin.js:85-88 | the page's list is every row with its tags parsed, in order, or a throw when any parse throws |
| Editor.NormalizeTag | public/js/admin.js:277 | a normalised tag is trimmed and lowercase |
| Editor.NormalizeTagOfPadded | public/js/admin.js:277 | whatever whitespace surrounds a typed tag, the tag kept is that word lowercased |
| Editor.WithTag | public/js/admin.js:276-283 | `addTag` appends the normalised tag at the end iff it is non-empty and not yet present, and otherwise changes nothing |
| Editor.WithTagWellFormed | public/js/admin.js:276-283 | a tag list of non-empty, trimmed, lowercase, distinct tags stays so after `addTag`, and then holds the added tag |
| Editor.WithTagIdempotent | public/js/admin.js:278-279 | adding the same input twice is adding it once |
| Editor.Without | public/js/admin.js:285-286 | `removeTag` keeps exactly the tags different from the argument, each as many times as before, and drops every copy of the argument |
| Editor.WithoutAbsent | public/js/admin.js:286 | removing an absent tag changes nothing |
| Editor.WithoutIsSubsequence | public/js/admin.js:286 | the remaining tags keep their order |
| Editor.WithoutWellFormed | public/js/admin.js:286 | `removeTag` keeps a well-formed tag list well formed |
| Editor.ReadTimeRoundTrip | public/js/admin.js:112 | `parseInt` of "n min read", with a fallback of 0, is n |
| Editor.EmptyReadTime | public/js/admin.js:112 | an empty minutes field gives a label that reads back as 0 |
| Editor.FormOf | public/js/admin.js:228-232 | editing shows the item's title, content, category and description ("" for null) and the number of minutes in its label |
| Editor.EditKeepsReadTime | public/js/admin.js:231 | editing and saving again keeps an "n min read" label unchanged |
| Editor.FindItem | public/js/admin.js:225 | finds the first item with the id, or nothing iff no item has it |
| Editor.ContentItem | public/js/admin.js:108-116 | the submitted body carries the form's title, content, category and description, the current tags, the minutes as a "min read" label and the given createdAt, so it never violates NOT NULL |
| Editor.Submit | public/js/admin.js:101-136 | without a token nothing is sent; in edit mode a PUT to the edited article with its stored createdAt (a throw when that article is gone); otherwise a POST dated today, always with "Bearer token"; the body carries the form's title, content, category, description and minutes label and the current tags |
| Editor.Editor.Submission | public/js/admin.js:101-136 | from the editor's state: a request is sent iff there is a token and, in edit mode, the edited article is loaded; it carries the current tags and the form's title; in edit mode it is a PUT whose path the server parses back to the edited id, otherwise a POST dated today |
| Editor.PutReachesEditedArticle | public/js/admin.js:125 | the server parses the edited id back out of the PUT path |
| Editor.StripIds | public/js/admin.js:326-327 | every imported article is posted as it was, without its id |
| Editor.ImportEchoesNewId | public/js/admin.js:327 | so the server's echo shows the newly assigned id |
| Editor.DistinctCount | public/js/admin.js:190 | a list without duplicates has as many distinct elements as entries |
| Editor.Editor.constructor | public/js/admin.js:1-3 | the page starts in add mode with no articles, no tags and an empty form |
| Editor.Editor.LoadArticles | public/js/admin.js:78-99 | the list is replaced by the parsed rows only when the request and every parse succeed; nothing else changes |
| Editor.Editor.AddTag | public/js/admin.js:276-283 | the tag list becomes `WithTag` of the old one; nothing else changes |
| Editor.Editor.RemoveTag | public/js/admin.js:285-288 | the tag list becomes `Without` of the old one; nothing else changes |
| Editor.Editor.EditContent | public/js/admin.js:224-238 | an unknown id changes nothing; a known one enters edit mode with a copy of its tags and its fields in the form |
| Editor.Editor.ResetForm | public/js/admin.js:240-248 | back to add mode with no tags and an empty form; the loaded articles are kept |
| Editor.Editor.AfterSave | public/js/admin.js:137-149 | after a successful save the form is reset to add mode with no tags; after a failed one the form, the tags and the mode are kept; the loaded list is not changed here |
| Editor.Editor.DashboardCounts | public/js/admin.js:188-199 | the total is the number of articles and the category count is the number of distinct non-empty categories |
| Home.FromRow | public/js/main.js:14-19 | a row reaches the page with every column the page reads (id, title, category, description, readTime) as the server sent it, tags as text (or no tags for NULL) and no semester; content and createdAt are not carried |
| Home.NormalizeTags | public/js/main.js:65 | an array is kept, the literal null (with any JSON whitespace around it) gives null, other text is JSON-parsed (throwing on bad JSON), and anything else is [] |
| Home.RowTagsNormalize | public/js/main.js:65 | a card built from a stored row shows the posted tags |
| Home.Chips | public/js/main.js:79-80 | at most three tags, plus "+k more" exactly when k > 0 tags are left over |
| Home.CardChips | public/js/main.js:65-80 | a card's chips come from its normalised tags; a bad or null tag list throws |
| Home.FirstMatchIsEarliest | public/js/main.js:37-42 | the classifier returns the semester of the earliest matching keyword, and null iff none matches |
| Home.Classify | public/js/main.js:36-42 | the chain of `includes` tests equals a first-match search over the keyword table |
| Home.GetSemester | public/js/main.js:32-43 | a truthy semester wins; otherwise the lowercased category is classified; a null category throws |
| Home.KeywordOrderDecidesTies | public/js/main.js:37-40 | a category containing both "basic" and "advanced" is Sem 1 |
| Home.SearchQuery | public/js/main.js:99 | the query is trimmed and lowercase |
| Home.SearchQueryOfPadded | public/js/main.js:99 | whatever whitespace surrounds the typed query, the query is that word lowercased |
| Home.SomeTagIncludes | public/js/main.js:123 | some tag, lowercased, contains the query |
| Home.Matches | public/js/main.js:117-125 | on a card with every field present, a match iff some field or the inferred semester contains the query; a title match does not throw once the tags normalise; throws come only from missing fields or bad tags |
| Home.FilterBy | public/js/main.js:117 | `Array.prototype.filter` with a callback that may throw: a throw iff the callback throws on some element; otherwise the accepted elements in order, each as often as in the input |
| Home.Filter | public/js/main.js:117-126 | the result is a subsequence of the cards holding each matching card as often as the list does and no other card, or a throw iff the predicate throws on some card |
| Home.SubsequenceDescending | public/js/main.js:115-117 | filtering a list sorted by id, newest first, keeps it sorted |
| Home.SinkFrom | public/js/main.js:17 | one pass of the sort extends the ordered prefix by one card and only rearranges the array |
| Home.SortByIdDesc | public/js/main.js:17 | the array ends up sorted by id, newest first, as a permutation of the input |
| Home.HomePage.constructor | public/js/main.js:1-2 | both lists start empty |
| Home.HomePage.FetchArticles | public/js/main.js:11-25 | the results are sorted by id, newest first, and become both the full and the shown list |
| Home.HomePage.PerformSearch | public/js/main.js:98-132 | an empty query shows the full list again; otherwise the shown list is the filter of the sorted results, newest first; a throw leaves it as it was |

## Left out

- Express routing, static file and HTML serving, `app.listen` and dotenv: framework plumbing. HTTP replies are the `Reply`, `LoginReply` and `Gate` datatypes with their status functions.
- Array-valued query parameters (`?page=1&page=2`): the parameters are modelled as single strings or absent.
- Store.ArticleTable.Create: storage errors other than a NOT NULL violation (a locked or unwritable database) are not modelled; the only 500 reply is the constraint failure, and the same holds for `Update`, `Delete`, `FindArticle` and `ListArticles`.
- Store.ListArticles: rows with equal `createdAt` are listed in ascending id order (a stable sort of the rowid scan); SQLite leaves that order unspecified.
- Non-string values in the text columns of a request body (numbers, objects) and keys other than the eight columns: a body field is a string or missing.
- Store.Echoed: the reply `{ id, ...req.body }` (server.js:96, server.js:116) is built from the model's body, in which a JSON null and a missing key are the same `None` and `id` is an integer or missing. So a body with `"id": null` is echoed with the assigned id where the server echoes null, a non-integer id (such as a string) cannot be represented, and a field sent as null comes back as absent rather than as a present null. The stored row is not affected: both bind SQL NULL.
- Store.TagsColumn: a `tags` value other than a list of strings, null or absent (a number, an object) is not modelled.
- JSON Web Token signing and verification: these are the `sign` and `verify` parameters. Expiry is decided inside `verify`, which receives the token only, so the clock is part of the verifier.
- JsBuiltins.Lower: maps only A–Z; Unicode case mapping beyond ASCII is not modelled.
- JsBuiltins.ParseIntOr: numbers are unbounded integers; the loss of precision of `parseInt` above 2^53 and the `Infinity` of very long digit runs are not modelled.
- Lone UTF-16 surrogates: strings are sequences of Unicode scalar values, so text cannot hold a lone surrogate. As a result, JsonTags.Decode treats a `\u` escape of a lone surrogate as a throw, although `JSON.parse` accepts it.
- Editor.ParseTags and Home.NormalizeTags: JSON text that parses to something other than a list of strings or null (a number, an object) is treated as a throw.
- Store.FindById: an id parameter whose suffix starts with a digit, or with x or X after the id 0, is not covered; `parseInt` reads it as a different number (DigitSuffixExtends, HexSuffixAfterZero).
- The DOM: `innerHTML` rendering, `loadContentList`, `updateTagsDisplay`, `showTab`, `showMessage`, event listeners. The form's inputs are the `form` field of `Editor`. The HTML page is not part of this model, so `contentForm.reset()` (public/js/admin.js:241) is taken to restore every input to an empty default value (`EmptyForm`).
- `fetch` and `getJsonOrError`: the server's answer is a parameter. Editor.Editor.LoadArticles receives None for a failed or non-ok request. `HomePage` methods receive the `results` array of a successful response; a failed request leaves the page unchanged and is not modelled.
- The un-awaited `fetchArticles()` after a submit, and the ordering of overlapping requests: each method runs to completion.
- `localStorage`: the token is a parameter of `Submit`.
- `deleteContent`, `exportData` and the file reading and confirmation in `importData`: only the id stripping of the import is modelled.
- The "this month" dashboard count: it depends on the wall clock and time zone.
- Editor.Submit: the date `new Date().toISOString().split('T')[0]` is the `today` parameter.
- Home.SortByIdDesc: states sorted and a permutation, not the stability of `Array.prototype.sort`; ids in a listing are distinct, so no two cards tie.
