/** `QueryUtils.extractFeatureFromJson`: turning the news API's JSON answer into a
    list of `News` records.

    The text parser of org.json is not modelled; it is the parameter
    `parse: string -> Option<Json>`, `None` meaning malformed text. A `null` string
    is `None` of `Option<string>`, and the `null` list the routine can return is
    `None` of `Option<seq<News>>`.

    The routine walks `response.results[]` once, keeping five string locals that are
    never reset between elements, so a key missing from one element keeps the value
    an earlier element gave it. `Carry` is that state and `Step` one pass of the loop
    body; `Walk` folds `Step` over the array and stops at the first `JSONException`,
    keeping the records already built. `Extract` is the whole routine as a function
    and the method `ExtractFeatureFromJson` is its statement-by-statement
    counterpart, proved equal to it.
 */
module QueryUtils {
  import opened Json
  import opened NewsRecord

  const KeyResponse := "response"
  const KeyResults := "results"
  const KeySection := "sectionName"
  const KeyPublishedDate := "webPublicationDate"
  /** The same key names the article title and, inside a tag, the author. */
  const KeyTitle := "webTitle"
  const KeyWebUrl := "webUrl"
  const KeyTags := "tags"

  /** The five article fields the loop keeps in locals. */
  datatype Field = Title | Section | Date | Url | Author

  /** The values of the five locals between two iterations of the loop. */
  datatype Carry = Carry(title: string, section: string, date: string, url: string, author: string) {
    function Get(f: Field): string {
      match f
      case Title => title
      case Section => section
      case Date => date
      case Url => url
      case Author => author
    }
  }

  /** The locals as declared before the loop: all empty. */
  const Init := Carry("", "", "", "", "")

  /** `TextUtils.isEmpty`: a `null` reference or the empty string. */
  predicate IsEmpty(text: Option<string>) {
    text.None? || text.value == ""
  }

  /** `TextUtils.isEmpty` looks at the length only: `null` and `""` are empty, a
      blank or whitespace-only string is not. */
  lemma BlankIsNotEmpty(text: string)
    ensures IsEmpty(None) && IsEmpty(Some(""))
    ensures IsEmpty(Some(text)) <==> |text| == 0
  {
  }

  // ---------------------------------------------------------------------------
  // What an element supplies, stated on the tree alone (no accessors)
  // ---------------------------------------------------------------------------

  /** The string a scalar value stands for; `None` for arrays and objects. */
  function Scalar(v: Json): Option<string> {
    match v
    case JStr(s) => Some(s)
    case JLit(text) => Some(text)
    case _ => None
  }

  /** The `webTitle` of the first tag, when the element has a non-empty `tags`
      array whose first entry is an object carrying that key. Later tags are never
      looked at. */
  function FirstTagTitle(o: JsonObject): Option<string> {
    if KeyTags in o && o[KeyTags].JArr? && |o[KeyTags].items| > 0
       && o[KeyTags].items[0].JObj? && KeyTitle in o[KeyTags].items[0].fields
    then Scalar(o[KeyTags].items[0].fields[KeyTitle])
    else None
  }

  /** The value element `x` gives field `f`, or `None` when it gives none. */
  function Supplied(x: Json, f: Field): Option<string> {
    match x
    case JObj(o) =>
      (match f
       case Title => if KeyTitle in o then Scalar(o[KeyTitle]) else None
       case Section => if KeySection in o then Scalar(o[KeySection]) else None
       case Date => if KeyPublishedDate in o then Scalar(o[KeyPublishedDate]) else None
       case Url => if KeyWebUrl in o then Scalar(o[KeyWebUrl]) else None
       case Author => FirstTagTitle(o))
    case _ => None
  }

  /** A key, when present, holds something `getString` accepts. */
  predicate StringOrAbsent(o: JsonObject, key: string) {
    key in o ==> o[key].JStr? || o[key].JLit?
  }

  /** Every accessor the loop body calls on element `x` succeeds. */
  predicate ItemOk(x: Json) {
    && x.JObj?
    && StringOrAbsent(x.fields, KeyTitle)
    && StringOrAbsent(x.fields, KeySection)
    && StringOrAbsent(x.fields, KeyPublishedDate)
    && StringOrAbsent(x.fields, KeyWebUrl)
    && (KeyTags in x.fields ==>
          && x.fields[KeyTags].JArr?
          && (|x.fields[KeyTags].items| > 0 ==>
                && x.fields[KeyTags].items[0].JObj?
                && StringOrAbsent(x.fields[KeyTags].items[0].fields, KeyTitle)))
  }

  // ---------------------------------------------------------------------------
  // The loop body and the fold
  // ---------------------------------------------------------------------------

  /** `if (obj.has(key)) local = obj.getString(key);` */
  function Refresh(obj: JsonObject, key: string, current: string): (r: Result<string>)
    ensures key !in obj ==> r == Ok(current)
    ensures key in obj ==> r == AsString(obj[key])
  {
    if Has(obj, key) then GetString(obj, key) else Ok(current)
  }

  /** The `tags` block: only index 0 is read (the Java's `for (j = 0; j < 1; j++)`).
      It throws when `tags` is not an array, or is non-empty with a first entry that
      is not an object or whose `webTitle` `getString` rejects; otherwise the first
      tag's `webTitle` replaces the author, and without one the author is kept. */
  function RefreshAuthor(item: JsonObject, current: string): (r: Result<string>)
    ensures r.Ok? <==> (KeyTags !in item
                        || (&& item[KeyTags].JArr?
                            && (|item[KeyTags].items| > 0 ==>
                                  && item[KeyTags].items[0].JObj?
                                  && StringOrAbsent(item[KeyTags].items[0].fields, KeyTitle))))
    ensures r.Ok? ==> r.value == (match FirstTagTitle(item) case Some(v) => v case None => current)
  {
    if Has(item, KeyTags) then
      var tags :- GetArray(item, KeyTags);
      if |tags| > 0 then
        var tag :- ArrayGetObject(tags, 0);
        Refresh(tag, KeyTitle, current)
      else Ok(current)
    else Ok(current)
  }

  /** One iteration of the loop, up to the construction of the record: the new
      values of the five locals, or the exception that ends the loop. */
  function Step(st: Carry, x: Json): (r: Result<Carry>)
    ensures r.Ok? <==> ItemOk(x)
    ensures r.Ok? ==> forall f :: r.value.Get(f) == (match Supplied(x, f) case Some(v) => v case None => st.Get(f))
  {
    var item :- AsObject(x);
    var title :- Refresh(item, KeyTitle, st.title);
    var section :- Refresh(item, KeySection, st.section);
    var date :- Refresh(item, KeyPublishedDate, st.date);
    var url :- Refresh(item, KeyWebUrl, st.url);
    var author :- RefreshAuthor(item, st.author);
    Ok(Carry(title, section, date, url, author))
  }

  /** `new News(newsTitle, newsSection, newsDate, newsAuthor, newsUrl)`: the
      constructor's fourth parameter is the url and its fifth the author, so the
      author lands in `url` and the web URL in `author`. */
  function ToNews(c: Carry): (n: News)
    ensures n.title == c.title && n.section == c.section && n.time == c.date
    ensures n.url == c.author
    ensures n.author == c.url
  {
    Create(c.title, c.section, c.date, c.author, c.url)
  }

  /** The loop over `results` from state `st`: one record per element until an
      element throws, then nothing more. */
  function Walk(items: seq<Json>, st: Carry): (r: seq<News>)
    ensures |r| <= |items|
    ensures |r| == |items| ==> forall i :: 0 <= i < |items| ==> ItemOk(items[i])
  {
    if |items| == 0 then []
    else
      match Step(st, items[0])
      case Err(_) => []
      case Ok(next) => [ToNews(next)] + Walk(items[1..], next)
  }

  /** The part of the `try` block before the loop: the parsed text must be an
      object holding an object `response`; an absent `results` is an empty array. */
  function Results(tree: Option<Json>): (r: Result<seq<Json>>)
    ensures r.Ok? <==> (&& tree.Some? && tree.value.JObj?
                        && KeyResponse in tree.value.fields
                        && tree.value.fields[KeyResponse].JObj?
                        && (KeyResults in tree.value.fields[KeyResponse].fields ==>
                              tree.value.fields[KeyResponse].fields[KeyResults].JArr?))
  {
    var base :- ParseObject(tree);
    var response :- GetObject(base, KeyResponse);
    if Has(response, KeyResults) then GetArray(response, KeyResults) else Ok([])
  }

  /** The `try`/`catch` block: an exception before the loop gives the empty list,
      one inside it the records built so far. */
  function Records(tree: Option<Json>): (r: seq<News>)
    ensures Results(tree).Err? ==> r == []
    ensures Results(tree).Ok? ==> |r| <= |Results(tree).value|
    ensures Results(tree).Ok? && |r| == |Results(tree).value| ==>
              forall i :: 0 <= i < |r| ==> ItemOk(Results(tree).value[i])
  {
    match Results(tree)
    case Err(_) => []
    case Ok(items) => Walk(items, Init)
  }

  /** `extractFeatureFromJson`: `null` for empty input, without parsing it;
      otherwise a list, never `null`. */
  function Extract(newsJSON: Option<string>, parse: string -> Option<Json>): (r: Option<seq<News>>)
    ensures r.None? <==> IsEmpty(newsJSON)
  {
    if IsEmpty(newsJSON) then None else Some(Records(parse(newsJSON.value)))
  }

  /** A `JSONException` thrown by element `i` ends the loop: the elements from `i`
      on contribute no record. */
  lemma ThrowEndsWalk(items: seq<Json>, i: int, st: Carry)
    requires 0 <= i < |items| && !ItemOk(items[i])
    ensures Walk(items[i..], st) == []
  {
  }

  /** The body of the loop for one element already fetched as an object, as the
      Java writes it: each present key overwrites its local, each accessor that
      throws ends the iteration. */
  method ReadNewsItem(item: JsonObject, locals: Carry) returns (r: Result<Carry>)
    ensures r == Step(locals, JObj(item))
  {
    var newsTitle, newsSection, newsDate, newsUrl := locals.title, locals.section, locals.date, locals.url;
    if Has(item, KeyTitle) {
      var s := GetString(item, KeyTitle);
      if s.Err? {
        return Err(JsonException);
      }
      newsTitle := s.value;
    }
    if Has(item, KeySection) {
      var s := GetString(item, KeySection);
      if s.Err? {
        return Err(JsonException);
      }
      newsSection := s.value;
    }
    if Has(item, KeyPublishedDate) {
      var s := GetString(item, KeyPublishedDate);
      if s.Err? {
        return Err(JsonException);
      }
      newsDate := s.value;
    }
    if Has(item, KeyWebUrl) {
      var s := GetString(item, KeyWebUrl);
      if s.Err? {
        return Err(JsonException);
      }
      newsUrl := s.value;
    }
    var newsAuthor := ReadAuthor(item, locals.author);
    if newsAuthor.Err? {
      return Err(JsonException);
    }
    return Ok(Carry(newsTitle, newsSection, newsDate, newsUrl, newsAuthor.value));
  }

  /** The `tags` block of the loop body: the first tag's `webTitle`, if any, replaces
      the author local. */
  method ReadAuthor(item: JsonObject, newsAuthor: string) returns (r: Result<string>)
    ensures r == RefreshAuthor(item, newsAuthor)
  {
    r := Ok(newsAuthor);
    if Has(item, KeyTags) {
      var tagsArray := GetArray(item, KeyTags);
      if tagsArray.Err? {
        return Err(JsonException);
      }
      if |tagsArray.value| > 0 {
        // the Java's `for (j = 0; j < 1; j++)` visits index 0 only
        var newsTag := ArrayGetObject(tagsArray.value, 0);
        if newsTag.Err? {
          return Err(JsonException);
        }
        if Has(newsTag.value, KeyTitle) {
          r := GetString(newsTag.value, KeyTitle);
        }
      }
    }
  }

  /** The `for` loop over `results`: the five locals start empty, each element's
      record is appended, and the first `JSONException` ends the loop with the
      records built so far. */
  method ReadResults(items: seq<Json>) returns (newsItems: seq<News>)
    ensures newsItems == Walk(items, Init)
  {
    newsItems := [];
    var newsTitle, newsSection, newsDate, newsUrl, newsAuthor := "", "", "", "", "";
    assert items[0..] == items;
    var i := 0;
    while i < |items|
      invariant 0 <= i <= |items|
      invariant newsItems + Walk(items[i..], Carry(newsTitle, newsSection, newsDate, newsUrl, newsAuthor))
                == Walk(items, Init)
    {
      var before := Carry(newsTitle, newsSection, newsDate, newsUrl, newsAuthor);
      assert items[i..][0] == items[i] && items[i..][1..] == items[i + 1..];
      var currentNewsItem := ArrayGetObject(items, i);
      if currentNewsItem.Err? {
        ThrowEndsWalk(items, i, before);
        assert newsItems + [] == newsItems;
        return;
      }
      var next := ReadNewsItem(currentNewsItem.value, before);
      if next.Err? {
        ThrowEndsWalk(items, i, before);
        assert newsItems + [] == newsItems;
        return;
      }
      assert items[i] == JObj(currentNewsItem.value);
      assert Walk(items[i..], before) == [ToNews(next.value)] + Walk(items[i + 1..], next.value);
      newsTitle, newsSection, newsDate, newsUrl, newsAuthor :=
        next.value.title, next.value.section, next.value.date, next.value.url, next.value.author;
      newsItems := newsItems + [Create(newsTitle, newsSection, newsDate, newsAuthor, newsUrl)];
      i := i + 1;
    }
    assert newsItems + Walk(items[i..], Carry(newsTitle, newsSection, newsDate, newsUrl, newsAuthor)) == newsItems;
  }

  /** `extractFeatureFromJson` written as the Java writes it: mutable locals, an
      indexed loop, an early exit on each accessor that throws. */
  method ExtractFeatureFromJson(newsJSON: Option<string>, parse: string -> Option<Json>)
    returns (r: Option<seq<News>>)
    ensures r == Extract(newsJSON, parse)
  {
    if IsEmpty(newsJSON) {
      return None;
    }
    var newsItems: seq<News> := [];
    var baseJsonResponse := ParseObject(parse(newsJSON.value));
    if baseJsonResponse.Err? {
      return Some(newsItems);
    }
    var jsonResults := GetObject(baseJsonResponse.value, KeyResponse);
    if jsonResults.Err? {
      return Some(newsItems);
    }
    if Has(jsonResults.value, KeyResults) {
      var newsArray := GetArray(jsonResults.value, KeyResults);
      if newsArray.Err? {
        return Some(newsItems);
      }
      assert Extract(newsJSON, parse) == Some(Walk(newsArray.value, Init));
      newsItems := ReadResults(newsArray.value);
    } else {
      assert Results(parse(newsJSON.value)) == Ok([]);
    }
    return Some(newsItems);
  }
}
