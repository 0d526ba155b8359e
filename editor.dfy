/**
  The admin page's editor state (public/js/admin.js): the loaded articles,
  the id being edited (add mode when there is none), the tag list being
  built, and the form fields.  The DOM, fetch and localStorage are not
  modelled; what the page sends to the server is returned as a value.
 */
module Editor {
  import opened JsBuiltins
  import JsonTags
  import Store

  /** An article as the page holds it: the row with its tags text parsed (None is JSON null). */
  datatype Item = Item(
    id: int,
    title: string,
    category: Option<string>,
    description: Option<string>,
    tags: Option<seq<string>>,
    content: string,
    readTime: Option<string>,
    createdAt: string)

  /** The text inputs of the content form. */
  datatype Form = Form(title: string, category: string, description: string, readTime: string, content: string)

  const EmptyForm: Form := Form("", "", "", "", "")

  // ---------------------------------------------------------------------
  // fetchArticles
  // ---------------------------------------------------------------------

  /**
    `article.tags ? JSON.parse(article.tags) : []`: NULL and the empty text
    give [], the JSON literal null (white space around it allowed) gives null,
    a JSON list of strings gives that list, and anything else throws (None).
   */
  function ParseTags(text: Option<string>): (r: Option<Option<seq<string>>>)
    ensures text.None? || text == Some("") ==> r == Some(Some([]))
    ensures text == Some("null") ==> r == Some(None)
    ensures text.Some? && JsonTags.IsNull(text.value) ==> r == Some(None)
    ensures text.Some? && text.value != [] && !JsonTags.IsNull(text.value) ==>
      (r.Some? <==> JsonTags.Decode(text.value).Some?)
    ensures r.Some? && r.value.Some? && text.Some? && text.value != [] ==> JsonTags.Decode(text.value) == r.value
  {
    match text
    case None => Some(Some([]))
    case Some(s) =>
      if s == [] then Some(Some([]))
      else
        assert s == "null" ==> JsonTags.IsNull(s) by {
          if s == "null" {
            JsonTags.NullPadded([], []);
            assert [] + "null" + [] == s;
          }
        }
        JsonTags.DecodeNullable(s)
  }

  /** Tags stored by the server come back as the list that was posted. */
  lemma StoredTagsRoundTrip(tags: seq<string>)
    ensures ParseTags(Store.TagsColumn(Store.List(tags))) == Some(Some(tags))
  {
    var text := JsonTags.Encode(tags);
    JsonTags.DecodeEncode(tags);
    JsonTags.ListIsNotNull(text);
    assert Store.TagsColumn(Store.List(tags)) == Some(text);
  }

  /** A list of tags posted to the server is the list the editor reads back for that article. */
  lemma CreateThenGetTags(t: Store.Table, body: Store.ArticleBody, tags: seq<string>)
    requires Store.WellFormed(t) && Store.InsertViolation(body).None? && body.tags == Store.List(tags)
    ensures Store.WellFormed(Store.Inserted(t, body))
    ensures var reply := Store.FindArticle(Store.Inserted(t, body), IntToString(t.nextId));
      reply.Found? && ParseTags(reply.row.tags) == Some(Some(tags))
  {
    Store.CreateThenGet(t, body);
    StoredTagsRoundTrip(tags);
  }

  function ToItem(a: Store.Article, tags: Option<seq<string>>): Item {
    Item(a.id, a.title, a.category, a.description, tags, a.content, a.readTime, a.createdAt)
  }

  /** `data.results.map(...)`: every row with its tags parsed, or None when one parse throws. */
  function ParseAll(rows: seq<Store.Article>): (r: Option<seq<Item>>)
    ensures r.Some? <==> forall i :: 0 <= i < |rows| ==> ParseTags(rows[i].tags).Some?
    ensures r.Some? ==> |r.value| == |rows|
    ensures r.Some? ==> forall i :: 0 <= i < |rows| ==> r.value[i] == ToItem(rows[i], ParseTags(rows[i].tags).value)
    decreases |rows|
  {
    if rows == [] then Some([])
    else
      match ParseTags(rows[0].tags)
      case None => None
      case Some(tags) =>
        match ParseAll(rows[1..])
        case None => None
        case Some(rest) => Some([ToItem(rows[0], tags)] + rest)
  }

  // ---------------------------------------------------------------------
  // Tags
  // ---------------------------------------------------------------------

  /** What addTag makes of its input: trimmed, then lowercased. */
  function NormalizeTag(input: string): (t: string)
    ensures IsTrimmed(t) && IsLower(t)
  {
    LowerKeepsTrimmed(Trim(input));
    LowerIsLower(Trim(input));
    Lower(Trim(input))
  }

  /**
    Whatever white space surrounds the typed tag, what is kept is the tag
    itself in lower case; with TrimSplits this pins NormalizeTag down for
    every input.
   */
  lemma NormalizeTagOfPadded(pre: string, w: string, post: string)
    requires AllSpace(pre) && AllSpace(post) && IsTrimmed(w)
    ensures NormalizeTag(pre + w + post) == Lower(w)
  {
    TrimPadded(pre, w, post);
  }

  /** Every tag non-empty, trimmed and lowercase, none twice. */
  predicate WellFormedTags(tags: seq<string>) {
    && (forall i :: 0 <= i < |tags| ==> tags[i] != [] && IsTrimmed(tags[i]) && IsLower(tags[i]))
    && (forall i, j :: 0 <= i < j < |tags| ==> tags[i] != tags[j])
  }

  /** The tag list after addTag(input). */
  function WithTag(tags: seq<string>, input: string): (r: seq<string>)
    ensures r == tags || r == tags + [NormalizeTag(input)]
    ensures r != tags <==> NormalizeTag(input) != [] && NormalizeTag(input) !in tags
  {
    var t := NormalizeTag(input);
    if t != [] && t !in tags then tags + [t] else tags
  }

  lemma WithTagWellFormed(tags: seq<string>, input: string)
    requires WellFormedTags(tags)
    ensures WellFormedTags(WithTag(tags, input))
    ensures NormalizeTag(input) != [] ==> NormalizeTag(input) in WithTag(tags, input)
  {
    var r := WithTag(tags, input);
    if r != tags {
      assert r[|tags|] == NormalizeTag(input);
      forall i, j | 0 <= i < j < |r| ensures r[i] != r[j] {
        if j == |tags| {
          assert r[i] in tags;
        }
      }
    }
  }

  /** Adding the same input twice is the same as adding it once. */
  lemma WithTagIdempotent(tags: seq<string>, input: string)
    ensures WithTag(WithTag(tags, input), input) == WithTag(tags, input)
  {
    var t := NormalizeTag(input);
    if t != [] && t !in tags {
      assert (tags + [t])[|tags|] == t;
    }
  }

  /** The tag list after removeTag(tag): every entry equal to tag dropped, the rest in order. */
  function Without(tags: seq<string>, tag: string): (r: seq<string>)
    ensures forall x :: x in r <==> x in tags && x != tag
    ensures multiset(r) == multiset(tags)[tag := 0]
    ensures |r| <= |tags|
    decreases |tags|
  {
    if tags == [] then []
    else
      assert tags == [tags[0]] + tags[1..];
      if tags[0] == tag then Without(tags[1..], tag)
      else [tags[0]] + Without(tags[1..], tag)
  }

  /** Removing a tag that is not there changes nothing. */
  lemma {:induction false} WithoutAbsent(tags: seq<string>, tag: string)
    requires tag !in tags
    ensures Without(tags, tag) == tags
    decreases |tags|
  {
    if tags != [] {
      WithoutAbsent(tags[1..], tag);
      assert tags == [tags[0]] + tags[1..];
    }
  }

  /** What is left keeps its order. */
  lemma {:induction false} WithoutIsSubsequence(tags: seq<string>, tag: string)
    ensures IsSubsequence(Without(tags, tag), tags)
    decreases |tags|
  {
    if tags != [] {
      WithoutIsSubsequence(tags[1..], tag);
      var rest := Without(tags[1..], tag);
      if tags[0] != tag {
        assert ([tags[0]] + rest)[1..] == rest;
      } else if rest != [] {
        assert rest[0] in tags[1..];
      }
    }
  }

  lemma {:induction false} WithoutWellFormed(tags: seq<string>, tag: string)
    requires WellFormedTags(tags)
    ensures WellFormedTags(Without(tags, tag))
    decreases |tags|
  {
    if tags != [] {
      assert WellFormedTags(tags[1..]) by {
        forall i, j | 0 <= i < j < |tags[1..]| ensures tags[1..][i] != tags[1..][j] {
          assert tags[1..][i] == tags[i + 1] && tags[1..][j] == tags[j + 1];
        }
      }
      WithoutWellFormed(tags[1..], tag);
      var rest := Without(tags[1..], tag);
      if tags[0] != tag {
        forall j | 0 <= j < |rest| ensures rest[j] != tags[0] {
          assert rest[j] in tags[1..];
        }
      }
    }
  }

  // ---------------------------------------------------------------------
  // Requests
  // ---------------------------------------------------------------------

  /** `${readTime} min read`. */
  function ReadTimeLabel(minutes: string): string {
    minutes + " min read"
  }

  /** The label keeps its number: `parseInt` of it gives back n, including 0. */
  lemma ReadTimeRoundTrip(n: int)
    ensures ParseIntOr(Some(ReadTimeLabel(IntToString(n))), 0) == n
  {
    ParseIntOfRendered(n, " min read");
  }

  /** An empty minutes field gives a label without a number, read back as 0. */
  lemma EmptyReadTime()
    ensures ParseIntOr(Some(ReadTimeLabel("")), 0) == 0
  {
    var text := ReadTimeLabel("");
    var word := "min read";
    assert text == [' '] + word && text[1..] == word;
    TrimStartNoSpace(word);
    ParseIntOfLetter(text, word);
  }

  /** What editContent puts in the form; an input given null shows "". */
  function FormOf(item: Item): (f: Form)
    ensures f.title == item.title && f.content == item.content
    ensures f.category == item.category.GetOr("") && f.description == item.description.GetOr("")
    ensures f.readTime == IntToString(ParseIntOr(item.readTime, 0))
  {
    Form(item.title, item.category.GetOr(""), item.description.GetOr(""),
         IntToString(ParseIntOr(item.readTime, 0)), item.content)
  }

  /** Editing and saving again keeps a "<n> min read" label as it was. */
  lemma EditKeepsReadTime(item: Item, n: int)
    requires item.readTime == Some(ReadTimeLabel(IntToString(n)))
    ensures ReadTimeLabel(FormOf(item).readTime) == item.readTime.value
  {
    ReadTimeRoundTrip(n);
  }

  datatype Verb = Post | Put

  datatype Request = Request(verb: Verb, path: string, authorization: string, body: Store.ArticleBody)

  datatype Submission =
    | NotLoggedIn      // 'Authentication error. Please log in again.'; nothing sent
    | Crashed          // the edited article is gone: reading its createdAt throws
    | Send(request: Request)

  /** `contentData.find(item => item.id === id)`: the first item with that id. */
  function FindItem(items: seq<Item>, id: int): (r: Option<Item>)
    ensures r.None? <==> forall i :: 0 <= i < |items| ==> items[i].id != id
    ensures r.Some? ==> exists i :: FirstWithId(items, id, i) && r.value == items[i]
    decreases |items|
  {
    if items == [] then None
    else if items[0].id == id then
      assert FirstWithId(items, id, 0);
      Some(items[0])
    else
      var r := FindItem(items[1..], id);
      assert r.Some? ==> exists i :: FirstWithId(items, id, i) && r.value == items[i] by {
        if r.Some? {
          var i :| FirstWithId(items[1..], id, i) && r.value == items[1..][i];
          assert FirstWithId(items, id, i + 1);
        }
      }
      r
  }

  /** i is the position of the first item with that id. */
  predicate FirstWithId(items: seq<Item>, id: int, i: int) {
    0 <= i < |items| && items[i].id == id && forall j :: 0 <= j < i ==> items[j].id != id
  }

  /** A truthy currentEditId: set, and not the number 0. */
  predicate EditMode(editId: Option<int>) {
    editId.Some? && editId.value != 0
  }

  function ContentItem(form: Form, tags: seq<string>, createdAt: string): (b: Store.ArticleBody)
    ensures Store.InsertViolation(b).None? && Store.UpdateViolation(b).None?
    ensures b.tags == Store.List(tags) && b.createdAt == Some(createdAt) && b.id.None?
    ensures b.readTime == Some(ReadTimeLabel(form.readTime))
    ensures b.title == Some(form.title) && b.content == Some(form.content)
    ensures b.category == Some(form.category) && b.description == Some(form.description)
  {
    Store.ArticleBody(None, Some(form.title), Some(form.category), Some(form.description),
      Store.List(tags), Some(form.content), Some(ReadTimeLabel(form.readTime)), Some(createdAt))
  }

  /**
    The form's submit handler: without a token nothing is sent; in edit mode
    a PUT to the edited article keeping its stored createdAt; otherwise a POST
    dated `today`.
   */
  function Submit(items: seq<Item>, editId: Option<int>, tags: seq<string>, form: Form,
                  token: Option<string>, today: string): (s: Submission)
    ensures s == NotLoggedIn <==> token.None? || token.value == []
    ensures s == Crashed <==> !(token.None? || token.value == []) && EditMode(editId) && FindItem(items, editId.value).None?
    ensures s.Send? ==>
      && s.request.authorization == "Bearer " + token.value
      && s.request.body.tags == Store.List(tags)
      && Store.InsertViolation(s.request.body).None?
    ensures s.Send? ==>
      && s.request.body.createdAt.Some?
      && s.request.body == ContentItem(form, tags, s.request.body.createdAt.value)
      && s.request.body.title == Some(form.title) && s.request.body.content == Some(form.content)
      && s.request.body.category == Some(form.category) && s.request.body.description == Some(form.description)
      && s.request.body.readTime == Some(ReadTimeLabel(form.readTime))
    ensures s.Send? && EditMode(editId) ==>
      && s.request.verb == Put
      && s.request.path == "/api/articles/" + IntToString(editId.value)
      && s.request.body.createdAt == Some(FindItem(items, editId.value).value.createdAt)
    ensures s.Send? && !EditMode(editId) ==>
      s.request.verb == Post && s.request.path == "/api/articles" && s.request.body.createdAt == Some(today)
  {
    if token.None? || token.value == [] then NotLoggedIn
    else
      var authorization := "Bearer " + token.value;
      if EditMode(editId) then
        match FindItem(items, editId.value)
        case None => Crashed
        case Some(edited) =>
          Send(Request(Put, "/api/articles/" + IntToString(editId.value), authorization,
                       ContentItem(form, tags, edited.createdAt)))
      else
        Send(Request(Post, "/api/articles", authorization, ContentItem(form, tags, today)))
  }

  /** The PUT's path names the edited article: the server parses the same id back out of it. */
  lemma PutReachesEditedArticle(id: int)
    ensures ParseInt(IntToString(id)) == Some(id)
  {
    ParseIntOfRendered(id, []);
    assert IntToString(id) + [] == IntToString(id);
  }

  /** `const { id, ...articleToPost } = article`: each imported article is posted without its id. */
  function StripIds(articles: seq<Store.ArticleBody>): (r: seq<Store.ArticleBody>)
    ensures |r| == |articles|
    ensures forall i :: 0 <= i < |r| ==> r[i].id.None? && r[i] == articles[i].(id := None)
  {
    seq(|articles|, i requires 0 <= i < |articles| => articles[i].(id := None))
  }

  /** So the server's echo of an imported article shows the id it assigned, never the old one. */
  lemma ImportEchoesNewId(articles: seq<Store.ArticleBody>, i: int, newId: int)
    requires 0 <= i < |articles|
    ensures Store.Echoed(newId, StripIds(articles)[i]).id == Some(newId)
  {
  }

  // ---------------------------------------------------------------------
  // Dashboard
  // ---------------------------------------------------------------------

  /** The distinct truthy categories: set, and not the empty string. */
  function CategorySet(items: seq<Item>): set<string> {
    set i | 0 <= i < |items| && items[i].category.Some? && items[i].category.value != [] :: items[i].category.value
  }

  predicate NoDuplicates<T(==)>(s: seq<T>) {
    forall i, j :: 0 <= i < j < |s| ==> s[i] != s[j]
  }

  lemma {:induction false} DistinctCount<T>(s: seq<T>)
    requires NoDuplicates(s)
    ensures |set x | x in s| == |s|
    decreases |s|
  {
    if s != [] {
      var init := s[..|s| - 1];
      assert NoDuplicates(init);
      DistinctCount(init);
      assert (set x | x in s) == (set x | x in init) + {s[|s| - 1]};
      assert s[|s| - 1] !in init;
    }
  }

  // ---------------------------------------------------------------------
  // The page state
  // ---------------------------------------------------------------------

  class Editor {
    var contentData: seq<Item>
    var currentEditId: Option<int>
    var currentTags: seq<string>
    var form: Form

    /** The page as loaded: no articles yet, add mode, no tags, an empty form. */
    constructor ()
      ensures contentData == [] && currentEditId.None? && currentTags == [] && form == EmptyForm
    {
      contentData := [];
      currentEditId := None;
      currentTags := [];
      form := EmptyForm;
    }

    /**
      fetchArticles with the rows the server answered (None when the request
      failed): the list is replaced only when every row's tags parse.
     */
    method LoadArticles(response: Option<seq<Store.Article>>)
      modifies this
      ensures response.Some? && ParseAll(response.value).Some? ==> contentData == ParseAll(response.value).value
      ensures response.None? || ParseAll(response.value).None? ==> contentData == old(contentData)
      ensures currentEditId == old(currentEditId) && currentTags == old(currentTags) && form == old(form)
    {
      if response.Some? {
        var items := ParseAll(response.value);
        if items.Some? {
          contentData := items.value;
        }
      }
    }

    /** addTag(input). */
    method AddTag(input: string)
      modifies this
      ensures currentTags == WithTag(old(currentTags), input)
      ensures contentData == old(contentData) && currentEditId == old(currentEditId) && form == old(form)
    {
      var tag := NormalizeTag(input);
      if tag != [] && tag !in currentTags {
        currentTags := currentTags + [tag];
      }
    }

    /** removeTag(tag). */
    method RemoveTag(tag: string)
      modifies this
      ensures currentTags == Without(old(currentTags), tag)
      ensures contentData == old(contentData) && currentEditId == old(currentEditId) && form == old(form)
    {
      currentTags := Without(currentTags, tag);
    }

    /** editContent(id): an unknown id changes nothing. */
    method EditContent(id: int)
      modifies this
      ensures contentData == old(contentData)
      ensures FindItem(contentData, id).None? ==>
        currentEditId == old(currentEditId) && currentTags == old(currentTags) && form == old(form)
      ensures FindItem(contentData, id).Some? ==>
        var item := FindItem(contentData, id).value;
        currentEditId == Some(id) && currentTags == item.tags.GetOr([]) && form == FormOf(item)
    {
      var found := FindItem(contentData, id);
      if found.None? {
        return;
      }
      currentEditId := Some(id);
      form := FormOf(found.value);
      currentTags := found.value.tags.GetOr([]);
    }

    /** resetForm(): back to add mode with no tags and an empty form. */
    method ResetForm()
      modifies this
      ensures currentEditId.None? && currentTags == [] && form == EmptyForm
      ensures contentData == old(contentData)
    {
      form := EmptyForm;
      currentTags := [];
      currentEditId := None;
    }

    /**
      The end of the submit handler once the server has answered: a success
      resets the form (the list is reloaded by a separate LoadArticles); a
      failure keeps the form, the tags and the mode as they were.
     */
    method AfterSave(ok: bool)
      modifies this
      ensures ok ==> currentEditId.None? && currentTags == [] && form == EmptyForm
      ensures !ok ==> currentEditId == old(currentEditId) && currentTags == old(currentTags) && form == old(form)
      ensures contentData == old(contentData)
    {
      if ok {
        ResetForm();
      }
    }

    /** The request the submit handler would send now. */
    function Submission(token: Option<string>, today: string): (s: Submission)
      reads this
      ensures s.Send? <==> token.Some? && token.value != [] && (EditMode(currentEditId) ==> FindItem(contentData, currentEditId.value).Some?)
      ensures s.Send? ==> s.request.body.tags == Store.List(currentTags) && s.request.body.title == Some(form.title)
      ensures s.Send? && EditMode(currentEditId) ==>
        && s.request.verb == Put && "/api/articles/" <= s.request.path
        && ParseInt(s.request.path[|"/api/articles/"|..]) == currentEditId
      ensures s.Send? && !EditMode(currentEditId) ==> s.request.verb == Post && s.request.body.createdAt == Some(today)
    {
      var s := Submit(contentData, currentEditId, currentTags, form, token, today);
      assert s.Send? && EditMode(currentEditId) ==> ParseInt(s.request.path[|"/api/articles/"|..]) == currentEditId by {
        if s.Send? && EditMode(currentEditId) {
          PutReachesEditedArticle(currentEditId.value);
          assert s.request.path[|"/api/articles/"|..] == IntToString(currentEditId.value);
        }
      }
      s
    }

    /**
      updateDashboard's two counts: the number of articles and the size of
      `[...new Set(categories)].filter(Boolean)`.
     */
    method DashboardCounts() returns (total: nat, categories: nat)
      ensures total == |contentData|
      ensures categories == |CategorySet(contentData)|
    {
      total := |contentData|;
      // new Set(contentData.map(item => item.category)), in insertion order
      var seen: seq<Option<string>> := [];
      var i := 0;
      while i < |contentData|
        invariant 0 <= i <= |contentData|
        invariant NoDuplicates(seen)
        invariant forall c :: c in seen <==> exists j :: 0 <= j < i && contentData[j].category == c
      {
        if contentData[i].category !in seen {
          seen := seen + [contentData[i].category];
        }
        i := i + 1;
      }
      // .filter(Boolean)
      var kept: seq<string> := [];
      var k := 0;
      while k < |seen|
        invariant 0 <= k <= |seen|
        invariant NoDuplicates(kept)
        invariant forall x :: x in kept <==> exists j :: 0 <= j < k && seen[j] == Some(x) && x != []
      {
        if seen[k].Some? && seen[k].value != [] {
          kept := kept + [seen[k].value];
        }
        k := k + 1;
      }
      categories := |kept|;
      DistinctCount(kept);
      assert (set x | x in kept) == CategorySet(contentData) by {
        forall x ensures x in kept <==> x in CategorySet(contentData) {
          if x in kept {
            var j :| 0 <= j < |seen| && seen[j] == Some(x) && x != [];
            assert seen[j] in seen;
          }
          if x in CategorySet(contentData) {
            var j :| 0 <= j < |contentData| && contentData[j].category == Some(x) && x != [];
            assert Some(x) in seen;
          }
        }
      }
    }
  }
}
