/**
  The public home page (public/js/main.js): the newest-first article list,
  the semester a category suggests, the tag chips of a card, and the search
  box.  JavaScript exceptions that the page's code can raise (a method called
  on null, JSON.parse of text that is not JSON) are an explicit `Thrown`
  outcome; the DOM and fetch are not modelled.
 */
module Home {
  import opened JsBuiltins
  import JsonTags
  import Store

  /** A JavaScript evaluation: a value, or an exception. */
  datatype Outcome<T> = Value(v: T) | Thrown

  /** The `tags` of an article as the page receives it: an array, a string, or anything else. */
  datatype TagsField = TagArray(items: seq<string>) | TagText(text: string) | NoTags

  /** An article in the page's lists.  `semester` is only ever set by code outside this repository. */
  datatype Card = Card(
    id: int,
    title: string,
    category: Option<string>,
    description: Option<string>,
    tags: TagsField,
    readTime: Option<string>,
    semester: Option<string>)

  /** A row from GET /api/articles as the page sees it: tags still JSON text (or null), no semester. */
  function FromRow(a: Store.Article): (c: Card)
    ensures c.id == a.id && c.semester.None?
    ensures c.title == a.title && c.category == a.category && c.description == a.description
    ensures c.readTime == a.readTime
    ensures a.tags.Some? ==> c.tags == TagText(a.tags.value)
    ensures a.tags.None? ==> c.tags == NoTags
  {
    Card(a.id, a.title, a.category, a.description,
         if a.tags.Some? then TagText(a.tags.value) else NoTags, a.readTime, None)
  }

  // ---------------------------------------------------------------------
  // Tags
  // ---------------------------------------------------------------------

  /**
    `Array.isArray(tags) ? tags : (typeof tags === 'string' ? JSON.parse(tags) : [])`.
    The parse gives a list, or null for the JSON literal null (white space
    around it allowed); any other text throws.
   */
  function NormalizeTags(t: TagsField): (r: Outcome<Option<seq<string>>>)
    ensures t.TagArray? ==> r == Value(Some(t.items))
    ensures t.NoTags? ==> r == Value(Some([]))
    ensures t == TagText("null") ==> r == Value(None)
    ensures t.TagText? && JsonTags.IsNull(t.text) ==> r == Value(None)
    ensures t.TagText? && !JsonTags.IsNull(t.text) ==>
      (r.Value? <==> JsonTags.Decode(t.text).Some?) && (r.Value? ==> r.v == JsonTags.Decode(t.text))
  {
    match t
    case TagArray(items) => Value(Some(items))
    case NoTags => Value(Some([]))
    case TagText(text) =>
      assert text == "null" ==> JsonTags.IsNull(text) by {
        if text == "null" {
          JsonTags.NullPadded([], []);
          assert [] + "null" + [] == text;
        }
      }
      match JsonTags.DecodeNullable(text)
      case Some(v) => Value(v)
      case None => Thrown
  }

  /** A card built from a stored row shows the tag list that was posted. */
  lemma RowTagsNormalize(a: Store.Article, tags: seq<string>)
    requires a.tags == Store.TagsColumn(Store.List(tags))
    ensures NormalizeTags(FromRow(a).tags) == Value(Some(tags))
  {
    var text := JsonTags.Encode(tags);
    JsonTags.DecodeEncode(tags);
    JsonTags.ListIsNotNull(text);
    assert a.tags == Some(text);
  }

  function MoreLabel(hidden: int): string {
    "+" + IntToString(hidden) + " more"
  }

  /** The tag chips of a card: the first three tags, then "+k more" when k tags are left over. */
  function Chips(tags: seq<string>): (r: seq<string>)
    ensures |tags| <= 3 ==> r == tags
    ensures |tags| > 3 ==> |r| == 4 && r[..3] == tags[..3] && r[3] == MoreLabel(|tags| - 3)
  {
    var shown := if |tags| < 3 then tags else tags[..3];
    shown + (if |tags| > 3 then [MoreLabel(|tags| - 3)] else [])
  }

  /** The tags a card renders: chips from its normalised tags; a null list throws at `slice`. */
  function CardChips(c: Card): (r: Outcome<seq<string>>)
    ensures r.Value? <==> NormalizeTags(c.tags).Value? && NormalizeTags(c.tags).v.Some?
    ensures r.Value? ==> r.v == Chips(NormalizeTags(c.tags).v.value)
  {
    match NormalizeTags(c.tags)
    case Thrown => Thrown
    case Value(None) => Thrown
    case Value(Some(tags)) => Value(Chips(tags))
  }

  // ---------------------------------------------------------------------
  // getSemester
  // ---------------------------------------------------------------------

  /** The keyword table, in the order the checks are made. */
  const Keywords: seq<(string, string)> := [
    ("basic", "Sem 1"),
    ("fundamental", "Sem 1"),
    ("data structure", "Sem 4"),
    ("database", "Sem 5"),
    ("advanced", "Sem 6")
  ]

  /** The semester of the first keyword of the table that occurs in `lc`. */
  function FirstMatch(table: seq<(string, string)>, lc: string): (r: Option<string>)
    decreases |table|
  {
    if table == [] then None
    else if Includes(lc, table[0].0) then Some(table[0].1)
    else FirstMatch(table[1..], lc)
  }

  /** FirstMatch finds the earliest keyword that occurs, and nothing only when none does. */
  lemma {:induction false} FirstMatchIsEarliest(table: seq<(string, string)>, lc: string)
    ensures FirstMatch(table, lc).None? <==> forall k :: 0 <= k < |table| ==> !Includes(lc, table[k].0)
    ensures FirstMatch(table, lc).Some? ==>
      exists k :: 0 <= k < |table| && Includes(lc, table[k].0) && FirstMatch(table, lc) == Some(table[k].1)
        && forall j :: 0 <= j < k ==> !Includes(lc, table[j].0)
    decreases |table|
  {
    if table != [] && !Includes(lc, table[0].0) {
      FirstMatchIsEarliest(table[1..], lc);
      if FirstMatch(table, lc).Some? {
        var k :| 0 <= k < |table[1..]| && Includes(lc, table[1..][k].0) && FirstMatch(table[1..], lc) == Some(table[1..][k].1)
          && forall j :: 0 <= j < k ==> !Includes(lc, table[1..][j].0);
        assert forall j :: 0 <= j < k + 1 ==> !Includes(lc, table[j].0) by {
          forall j | 0 <= j < k + 1 ensures !Includes(lc, table[j].0) {
            if j > 0 {
              assert table[j] == table[1..][j - 1];
            }
          }
        }
        assert table[k + 1] == table[1..][k];
      }
      if forall k :: 0 <= k < |table[1..]| ==> !Includes(lc, table[1..][k].0) {
        forall k | 0 <= k < |table| ensures !Includes(lc, table[k].0) {
          if k > 0 {
            assert table[k] == table[1..][k - 1];
          }
        }
      }
    }
  }

  /** The chain of ifs in getSemester, on the lowercased category. */
  function Classify(lc: string): (r: Option<string>)
    ensures r == FirstMatch(Keywords, lc)
  {
    if Includes(lc, "basic") || Includes(lc, "fundamental") then Some("Sem 1")
    else if Includes(lc, "data structure") then Some("Sem 4")
    else if Includes(lc, "database") then Some("Sem 5")
    else if Includes(lc, "advanced") then Some("Sem 6")
    else None
  }

  /**
    getSemester(article): a truthy `semester` wins; otherwise the category,
    lowercased, is classified; a null category throws at `toLowerCase`.
   */
  function GetSemester(c: Card): (r: Outcome<Option<string>>)
    ensures c.semester.Some? && c.semester.value != [] ==> r == Value(c.semester)
    ensures r.Thrown? <==> !(c.semester.Some? && c.semester.value != []) && c.category.None?
    ensures !(c.semester.Some? && c.semester.value != []) && c.category.Some? ==>
      r == Value(FirstMatch(Keywords, Lower(c.category.value)))
  {
    if c.semester.Some? && c.semester.value != [] then Value(c.semester)
    else
      match c.category
      case None => Thrown
      case Some(category) => Value(Classify(Lower(category)))
  }

  /**
    The first keyword in table order decides: a category naming both "basic"
    and "advanced" (in either order, in any case) is Sem 1, not Sem 6.
   */
  lemma KeywordOrderDecidesTies(c: Card, i: int, j: int)
    requires c.semester.None? && c.category.Some?
    requires OccursAt(Lower(c.category.value), "basic", i)
    requires OccursAt(Lower(c.category.value), "advanced", j)
    ensures GetSemester(c) == Value(Some("Sem 1"))
  {
    IncludesAt(Lower(c.category.value), "basic", i);
  }

  // ---------------------------------------------------------------------
  // Search
  // ---------------------------------------------------------------------

  /** The search box text, `.toLowerCase().trim()`. */
  function SearchQuery(input: string): (q: string)
    ensures IsTrimmed(q) && IsLower(q)
  {
    LowerIsLower(input);
    TrimKeepsLower(Lower(input));
    Trim(Lower(input))
  }

  /**
    The query is the typed word in lower case, whatever white space surrounds
    it; with TrimSplits this pins SearchQuery down for every input.
   */
  lemma SearchQueryOfPadded(pre: string, w: string, post: string)
    requires AllSpace(pre) && AllSpace(post) && IsTrimmed(w)
    ensures SearchQuery(pre + w + post) == Lower(w)
  {
    LowerConcat(pre + w, post);
    LowerConcat(pre, w);
    LowerKeepsSpace(pre);
    LowerKeepsSpace(post);
    LowerKeepsTrimmed(w);
    TrimPadded(Lower(pre), Lower(w), Lower(post));
  }

  /** `tags.some(tag => tag.toLowerCase().includes(query))`. */
  function SomeTagIncludes(tags: seq<string>, query: string): (b: bool)
    ensures b <==> exists k :: 0 <= k < |tags| && Includes(Lower(tags[k]), query)
    decreases |tags|
  {
    if tags == [] then false
    else if Includes(Lower(tags[0]), query) then true
    else
      var rest := SomeTagIncludes(tags[1..], query);
      assert forall k :: 1 <= k < |tags| ==> tags[k] == tags[1..][k - 1];
      rest
  }

  /** Every field the predicate reads is there: nothing in it can throw. */
  predicate FieldsPresent(c: Card) {
    c.category.Some? && c.description.Some? && NormalizeTags(c.tags).Value? && NormalizeTags(c.tags).v.Some?
  }

  /** The search predicate stated field by field. */
  predicate AnyFieldIncludes(c: Card, query: string)
    requires FieldsPresent(c)
  {
    var tags := NormalizeTags(c.tags).v.value;
    var semester := FirstMatchOrSet(c);
    || Includes(Lower(c.title), query)
    || Includes(Lower(c.category.value), query)
    || Includes(Lower(c.description.value), query)
    || (exists k :: 0 <= k < |tags| && Includes(Lower(tags[k]), query))
    || (semester.Some? && semester.value != [] && Includes(Lower(semester.value), query))
  }

  /** The semester getSemester reports for a card with a category. */
  function FirstMatchOrSet(c: Card): Option<string>
    requires c.category.Some?
  {
    if c.semester.Some? && c.semester.value != [] then c.semester
    else FirstMatch(Keywords, Lower(c.category.value))
  }

  /**
    The filter callback: tags are normalised first, then title, category,
    description, tags and semester are tried in that order, each one only if
    the previous ones did not match.
   */
  function Matches(c: Card, query: string): (r: Outcome<bool>)
    ensures FieldsPresent(c) ==> r == Value(AnyFieldIncludes(c, query))
    ensures NormalizeTags(c.tags).Value? && Includes(Lower(c.title), query) ==> r == Value(true)
    ensures r.Thrown? ==>
      NormalizeTags(c.tags).Thrown? || c.category.None? || c.description.None? || NormalizeTags(c.tags).v.None?
  {
    match NormalizeTags(c.tags)
    case Thrown => Thrown
    case Value(tags) =>
      if Includes(Lower(c.title), query) then Value(true)
      else if c.category.None? then Thrown
      else if Includes(Lower(c.category.value), query) then Value(true)
      else if c.description.None? then Thrown
      else if Includes(Lower(c.description.value), query) then Value(true)
      else if tags.None? then Thrown
      else if SomeTagIncludes(tags.value, query) then Value(true)
      else
        match GetSemester(c)
        case Thrown => Thrown
        case Value(None) => Value(false)
        case Value(Some(semester)) => Value(semester != [] && Includes(Lower(semester), query))
  }

  /**
    `Array.prototype.filter` with a callback that may throw: the elements the
    callback accepts, in order, or a throw if it throws on any element.
   */
  function FilterBy<T(==,!new)>(s: seq<T>, keep: T -> Outcome<bool>): (r: Outcome<seq<T>>)
    ensures r.Value? <==> forall i :: 0 <= i < |s| ==> keep(s[i]).Value?
    ensures r.Value? ==> IsSubsequence(r.v, s)
    ensures r.Value? ==> forall x :: multiset(r.v)[x] == if keep(x) == Value(true) then multiset(s)[x] else 0
    ensures r.Value? ==> forall x :: x in r.v <==> x in s && keep(x) == Value(true)
    decreases |s|
  {
    if s == [] then Value([])
    else
      var head := keep(s[0]);
      var rest := FilterBy(s[1..], keep);
      assert forall i :: 1 <= i < |s| ==> s[i] == s[1..][i - 1];
      if head.Thrown? || rest.Thrown? then Thrown
      else
        var r := if head.v then [s[0]] + rest.v else rest.v;
        FilterByStep(s, keep, rest.v, r);
        Value(r)
  }

  /** `cards.filter(...)`: the matching cards in order, or a throw if the callback throws on any card. */
  function Filter(cards: seq<Card>, query: string): (r: Outcome<seq<Card>>)
    ensures r.Value? <==> forall i :: 0 <= i < |cards| ==> Matches(cards[i], query).Value?
    ensures r.Value? ==> IsSubsequence(r.v, cards)
    ensures r.Value? ==> forall x :: multiset(r.v)[x] == if Matches(x, query) == Value(true) then multiset(cards)[x] else 0
    ensures r.Value? ==> forall x :: x in r.v <==> x in cards && Matches(x, query) == Value(true)
  {
    FilterBy(cards, c => Matches(c, query))
  }

  /** One step of FilterBy: deciding on the first element keeps all three facts about the result. */
  lemma FilterByStep<T(!new)>(s: seq<T>, keep: T -> Outcome<bool>, rest: seq<T>, r: seq<T>)
    requires s != [] && keep(s[0]).Value?
    requires IsSubsequence(rest, s[1..])
    requires forall x :: multiset(rest)[x] == if keep(x) == Value(true) then multiset(s[1..])[x] else 0
    requires r == if keep(s[0]).v then [s[0]] + rest else rest
    ensures IsSubsequence(r, s)
    ensures forall x :: multiset(r)[x] == if keep(x) == Value(true) then multiset(s)[x] else 0
    ensures forall x :: x in r <==> x in s && keep(x) == Value(true)
  {
    KeepCountsStep(s, x => keep(x) == Value(true), rest, r);
    assert !keep(s[0]).v ==> s[0] !in rest by {
      assert multiset(rest)[s[0]] == 0 <==> s[0] !in rest;
    }
    SubsequenceStep(s, keep(s[0]).v, rest, r);
  }

  /** Keeping or dropping the first element keeps a filter's result a subsequence. */
  lemma SubsequenceStep<T>(s: seq<T>, keepHead: bool, rest: seq<T>, r: seq<T>)
    requires s != [] && IsSubsequence(rest, s[1..])
    requires r == if keepHead then [s[0]] + rest else rest
    requires !keepHead ==> s[0] !in rest
    ensures IsSubsequence(r, s)
  {
    if keepHead {
      assert r[1..] == rest;
    } else if rest != [] {
      assert rest[0] != s[0];
    }
  }

  /** Keeping or dropping the first element keeps a filter's counts right. */
  lemma KeepCountsStep<T>(s: seq<T>, keep: T -> bool, rest: seq<T>, r: seq<T>)
    requires s != []
    requires forall x :: multiset(rest)[x] == if keep(x) then multiset(s[1..])[x] else 0
    requires r == if keep(s[0]) then [s[0]] + rest else rest
    ensures forall x :: multiset(r)[x] == if keep(x) then multiset(s)[x] else 0
    ensures forall x :: x in r <==> x in s && keep(x)
  {
    assert multiset(s) == multiset{s[0]} + multiset(s[1..]) by {
      assert s == [s[0]] + s[1..];
    }
    forall x ensures x in r <==> x in s && keep(x) {
      assert x in r <==> multiset(r)[x] > 0;
      assert x in s <==> multiset(s)[x] > 0;
    }
  }

  // ---------------------------------------------------------------------
  // Sorting by id, newest first
  // ---------------------------------------------------------------------

  predicate IdsDescending(s: seq<Card>) {
    forall p, q :: 0 <= p < q < |s| ==> s[p].id >= s[q].id
  }

  /** Leaving cards out of a descending list keeps it descending. */
  lemma {:induction false} SubsequenceDescending(a: seq<Card>, b: seq<Card>)
    requires IsSubsequence(a, b) && IdsDescending(b)
    ensures IdsDescending(a)
    decreases |b|
  {
    if a != [] {
      assert IdsDescending(b[1..]);
      if a[0] == b[0] {
        SubsequenceDescending(a[1..], b[1..]);
        SubsequenceMembers(a[1..], b[1..]);
        forall p, q | 0 <= p < q < |a| ensures a[p].id >= a[q].id {
          if p == 0 {
            assert a[q] == a[1..][q - 1];
            assert a[q] in b[1..];
          } else {
            assert a[p] == a[1..][p - 1] && a[q] == a[1..][q - 1];
          }
        }
      } else {
        SubsequenceDescending(a, b[1..]);
      }
    }
  }

  /** s with the neighbours at j - 1 and j exchanged. */
  function SwapDown(s: seq<Card>, j: int): (r: seq<Card>)
    requires 0 < j < |s|
    ensures |r| == |s| && r[j - 1] == s[j] && r[j] == s[j - 1]
    ensures forall k :: 0 <= k < |s| && k != j - 1 && k != j ==> r[k] == s[k]
    ensures multiset(r) == multiset(s)
  {
    s[j - 1 := s[j]][j := s[j - 1]]
  }

  /**
    While the card that started at i sinks to position j: the cards 0 .. i
    other than it are in order, and it is smaller than everything after it.
   */
  predicate Sinking(s: seq<Card>, i: int, j: int)
    requires 0 <= j <= i < |s|
  {
    && (forall p, q :: 0 <= p < q <= i && p != j && q != j ==> s[p].id >= s[q].id)
    && (forall q :: j < q <= i ==> s[j].id > s[q].id)
  }

  lemma SinkingStart(s: seq<Card>, i: int)
    requires 0 <= i < |s| && IdsDescending(s[..i])
    ensures Sinking(s, i, i)
  {
    forall p, q | 0 <= p < q <= i && p != i && q != i ensures s[p].id >= s[q].id {
      assert s[p] == s[..i][p] && s[q] == s[..i][q];
    }
  }

  lemma SinkingStep(s: seq<Card>, i: int, j: int)
    requires 0 < j <= i < |s| && Sinking(s, i, j) && s[j - 1].id < s[j].id
    ensures Sinking(SwapDown(s, j), i, j - 1)
  {
  }

  lemma SinkingDone(s: seq<Card>, i: int, j: int)
    requires 0 <= j <= i < |s| && Sinking(s, i, j) && (j == 0 || s[j - 1].id >= s[j].id)
    ensures IdsDescending(s[..i + 1])
  {
    forall p, q | 0 <= p < q < i + 1 ensures s[p].id >= s[q].id {
      if q == j && p < j - 1 {
        assert s[p].id >= s[j - 1].id;
      }
    }
  }

  /** One pass of the sort: the card at i sinks until the prefix 0 .. i is in order. */
  method SinkFrom(a: array<Card>, i: int)
    requires 0 < i < a.Length && IdsDescending(a[..i])
    modifies a
    ensures IdsDescending(a[..i + 1])
    ensures multiset(a[..]) == multiset(old(a[..]))
  {
    SinkingStart(a[..], i);
    var j := i;
    while j > 0 && a[j - 1].id < a[j].id
      invariant 0 <= j <= i
      invariant Sinking(a[..], i, j)
      invariant multiset(a[..]) == multiset(old(a[..]))
    {
      ghost var s := a[..];
      SinkingStep(s, i, j);
      a[j - 1], a[j] := a[j], a[j - 1];
      assert a[..] == SwapDown(s, j);
      j := j - 1;
    }
    SinkingDone(a[..], i, j);
  }

  /** `a.sort((x, y) => y.id - x.id)`: a stable sort, largest id first (insertion by adjacent swaps). */
  method SortByIdDesc(a: array<Card>)
    modifies a
    ensures IdsDescending(a[..])
    ensures multiset(a[..]) == multiset(old(a[..]))
  {
    if a.Length == 0 {
      return;
    }
    var i := 1;
    while i < a.Length
      invariant 1 <= i <= a.Length
      invariant IdsDescending(a[..i])
      invariant multiset(a[..]) == multiset(old(a[..]))
    {
      SinkFrom(a, i);
      i := i + 1;
    }
    assert a[..] == a[..a.Length];
  }

  // ---------------------------------------------------------------------
  // The page state
  // ---------------------------------------------------------------------

  class HomePage {
    var allArticles: seq<Card>
    var filteredArticles: seq<Card>

    constructor ()
      ensures allArticles == [] && filteredArticles == []
    {
      allArticles := [];
      filteredArticles := [];
    }

    /**
      fetchArticles with the `results` array of a successful response: sorted
      in place, newest id first, then kept and copied for display.
     */
    method FetchArticles(results: array<Card>)
      modifies this, results
      ensures IdsDescending(results[..]) && multiset(results[..]) == multiset(old(results[..]))
      ensures allArticles == results[..] && filteredArticles == allArticles
    {
      SortByIdDesc(results);
      allArticles := results[..];
      filteredArticles := allArticles;
    }

    /**
      performSearch with the box's text and the `results` array the search
      request would answer: an empty query restores the fetched list without
      any request; otherwise the results are sorted and filtered, and a throw
      in the filter leaves the shown list as it was.
     */
    method PerformSearch(input: string, results: array<Card>)
      modifies this, results
      ensures allArticles == old(allArticles)
      ensures SearchQuery(input) == [] ==> filteredArticles == allArticles && results[..] == old(results[..])
      ensures SearchQuery(input) != [] ==>
        && IdsDescending(results[..])
        && multiset(results[..]) == multiset(old(results[..]))
        && (Filter(results[..], SearchQuery(input)).Thrown? ==> filteredArticles == old(filteredArticles))
        && (Filter(results[..], SearchQuery(input)).Value? ==>
              filteredArticles == Filter(results[..], SearchQuery(input)).v && IdsDescending(filteredArticles))
    {
      var query := SearchQuery(input);
      if query == [] {
        filteredArticles := allArticles;
        return;
      }
      SortByIdDesc(results);
      var kept := Filter(results[..], query);
      if kept.Value? {
        SubsequenceDescending(kept.v, results[..]);
        filteredArticles := kept.v;
      }
    }
  }
}
