/** Two behaviours of `extractFeatureFromJson` that the rest of the application
    evidently does not expect, each shown on a concrete document next to the
    corrected definition and the property it then has.

    - The record is built as `new News(title, section, date, author, url)` while the
      constructor's parameter order is `(title, section, time, url, author)`: the
      list screen shows the web URL as the author, and a tap opens the author's name
      as a URL.
    - The five locals are never reset between elements, so an element without
      `sectionName` shows the section of an earlier article.

    The as-written definitions are those of `QueryUtils`; the corrected ones below
    reset the locals for every element and pass url and author in their own slots.
 */
module Intended {
  import opened Json
  import opened NewsRecord
  import opened QueryUtils

  // ---------------------------------------------------------------------------
  // Concrete documents
  // ---------------------------------------------------------------------------

  function TagBy(name: string): Json {
    JObj(map[KeyTitle := JStr(name)])
  }

  /** The single article of the first document: every key present, one tag. */
  function ArticleA(): Json {
    JObj(map[
      KeyTitle := JStr("T1"),
      KeySection := JStr("World"),
      KeyPublishedDate := JStr("2020-01-01T00:00:00Z"),
      KeyWebUrl := JStr("http://x/1"),
      KeyTags := JArr([TagBy("Jane Doe")])])
  }

  /** A second article with a title but no section, date, url or tags. */
  function ArticleB(): Json {
    JObj(map[KeyTitle := JStr("T2")])
  }

  function Document(results: seq<Json>): Json {
    JObj(map[KeyResponse := JObj(map[KeyResults := JArr(results)])])
  }

  // ---------------------------------------------------------------------------
  // As written
  // ---------------------------------------------------------------------------

  /** As written, the article's author is returned by the url getter and its web
      address by the author getter. */
  lemma SwappedOnArticleA(newsJSON: string, parse: string -> Option<Json>)
    requires newsJSON != "" && parse(newsJSON) == Some(Document([ArticleA()]))
    ensures Extract(Some(newsJSON), parse)
         == Some([News("T1", "World", "2020-01-01T00:00:00Z", "Jane Doe", "http://x/1")])
    ensures Extract(Some(newsJSON), parse).value[0].url != "http://x/1"
  {
    assert Results(parse(newsJSON)) == Ok([ArticleA()]);
    var c := Carry("T1", "World", "2020-01-01T00:00:00Z", "http://x/1", "Jane Doe");
    assert Step(Init, ArticleA()) == Ok(c);
    assert Walk([ArticleA()], Init) == [ToNews(c)] + Walk([], c);
    assert Extract(Some(newsJSON), parse) == Some(Walk([ArticleA()], Init));
    assert Walk([ArticleA()], Init) == [ToNews(c)];
    assert ToNews(c) == News("T1", "World", "2020-01-01T00:00:00Z", "Jane Doe", "http://x/1");
  }

  /** As written, the second article inherits the section, date, url and author of
      the first. */
  lemma CarriedOnArticleB(newsJSON: string, parse: string -> Option<Json>)
    requires newsJSON != "" && parse(newsJSON) == Some(Document([ArticleA(), ArticleB()]))
    ensures Extract(Some(newsJSON), parse)
         == Some([News("T1", "World", "2020-01-01T00:00:00Z", "Jane Doe", "http://x/1"),
                  News("T2", "World", "2020-01-01T00:00:00Z", "Jane Doe", "http://x/1")])
  {
    var items := [ArticleA(), ArticleB()];
    assert Results(parse(newsJSON)) == Ok(items);
    var a := Carry("T1", "World", "2020-01-01T00:00:00Z", "http://x/1", "Jane Doe");
    var b := Carry("T2", "World", "2020-01-01T00:00:00Z", "http://x/1", "Jane Doe");
    assert Step(Init, ArticleA()) == Ok(a);
    assert Step(a, ArticleB()) == Ok(b);
    assert items[1..] == [ArticleB()];
    assert Walk([ArticleB()], a) == [ToNews(b)] + Walk([], b) == [ToNews(b)];
    assert Walk(items, Init) == [ToNews(a)] + Walk([ArticleB()], a);
    assert Extract(Some(newsJSON), parse) == Some(Walk(items, Init));
    assert ToNews(a) == News("T1", "World", "2020-01-01T00:00:00Z", "Jane Doe", "http://x/1");
    assert ToNews(b) == News("T2", "World", "2020-01-01T00:00:00Z", "Jane Doe", "http://x/1");
    assert [ToNews(a)] + [ToNews(b)] == [ToNews(a), ToNews(b)];
  }

  // ---------------------------------------------------------------------------
  // Corrected
  // ---------------------------------------------------------------------------

  /** The record with each value in the constructor slot of its own name. */
  function ToNewsIntended(c: Carry): (n: News)
    ensures n.title == c.title && n.section == c.section && n.time == c.date
    ensures n.url == c.url
    ensures n.author == c.author
  {
    Create(c.title, c.section, c.date, c.url, c.author)
  }

  /** The value element `x` gives field `f`, defaulting to `""`. */
  function Own(x: Json, f: Field): string {
    match Supplied(x, f)
    case Some(v) => v
    case None => ""
  }

  /** The loop with the locals reset for every element; a `JSONException` still
      ends it with the records built so far. */
  function WalkIntended(items: seq<Json>): (r: seq<News>)
    ensures |r| <= |items|
    ensures |r| == |items| ==> forall i :: 0 <= i < |items| ==> ItemOk(items[i])
  {
    if |items| == 0 then []
    else
      match Step(Init, items[0])
      case Err(_) => []
      case Ok(c) => [ToNewsIntended(c)] + WalkIntended(items[1..])
  }

  /** The corrected routine: `null` for empty input, otherwise the corrected walk
      over `response.results`. */
  function ExtractIntended(newsJSON: Option<string>, parse: string -> Option<Json>): (r: Option<seq<News>>)
    ensures r.None? <==> IsEmpty(newsJSON)
  {
    if IsEmpty(newsJSON) then None
    else
      match Results(parse(newsJSON.value))
      case Err(_) => Some([])
      case Ok(items) => Some(WalkIntended(items))
  }

  /** Corrected, every well-formed element yields a record of its own values only:
      a key it lacks reads `""`, whatever earlier elements held, and the url and
      author getters return the element's `webUrl` and first tag's `webTitle`. */
  lemma {:induction false} IntendedRecordsOwnFields(items: seq<Json>)
    requires forall j :: 0 <= j < |items| ==> ItemOk(items[j])
    ensures |WalkIntended(items)| == |items|
    ensures forall i :: 0 <= i < |items| ==>
              && WalkIntended(items)[i].title == Own(items[i], Title)
              && WalkIntended(items)[i].section == Own(items[i], Section)
              && WalkIntended(items)[i].time == Own(items[i], Date)
              && WalkIntended(items)[i].url == Own(items[i], Url)
              && WalkIntended(items)[i].author == Own(items[i], Author)
  {
    if |items| > 0 {
      IntendedRecordsOwnFields(items[1..]);
      var r := WalkIntended(items);
      var c := Step(Init, items[0]).value;
      assert r == [ToNewsIntended(c)] + WalkIntended(items[1..]);
      assert c.Get(Title) == Own(items[0], Title);
      assert c.Get(Section) == Own(items[0], Section);
      assert c.Get(Date) == Own(items[0], Date);
      assert c.Get(Url) == Own(items[0], Url);
      assert c.Get(Author) == Own(items[0], Author);
      forall i | 1 <= i < |items|
        ensures r[i] == WalkIntended(items[1..])[i - 1]
        ensures items[i] == items[1..][i - 1]
      {
      }
    }
  }

  /** Corrected, the first document's record carries the web address in `url` and
      the author in `author`. */
  lemma IntendedOnArticleA(newsJSON: string, parse: string -> Option<Json>)
    requires newsJSON != "" && parse(newsJSON) == Some(Document([ArticleA()]))
    ensures ExtractIntended(Some(newsJSON), parse)
         == Some([News("T1", "World", "2020-01-01T00:00:00Z", "http://x/1", "Jane Doe")])
  {
    assert Results(parse(newsJSON)) == Ok([ArticleA()]);
    var c := Carry("T1", "World", "2020-01-01T00:00:00Z", "http://x/1", "Jane Doe");
    assert Step(Init, ArticleA()) == Ok(c);
    assert WalkIntended([ArticleA()]) == [ToNewsIntended(c)] + WalkIntended([]) == [ToNewsIntended(c)];
    assert ExtractIntended(Some(newsJSON), parse) == Some(WalkIntended([ArticleA()]));
    assert ToNewsIntended(c) == News("T1", "World", "2020-01-01T00:00:00Z", "http://x/1", "Jane Doe");
  }

  /** Corrected, the second article's missing keys read `""`. */
  lemma IntendedOnArticleB(newsJSON: string, parse: string -> Option<Json>)
    requires newsJSON != "" && parse(newsJSON) == Some(Document([ArticleA(), ArticleB()]))
    ensures ExtractIntended(Some(newsJSON), parse)
         == Some([News("T1", "World", "2020-01-01T00:00:00Z", "http://x/1", "Jane Doe"),
                  News("T2", "", "", "", "")])
  {
    var items := [ArticleA(), ArticleB()];
    assert Results(parse(newsJSON)) == Ok(items);
    var a := Carry("T1", "World", "2020-01-01T00:00:00Z", "http://x/1", "Jane Doe");
    var b := Carry("T2", "", "", "", "");
    assert Step(Init, ArticleA()) == Ok(a);
    assert Step(Init, ArticleB()) == Ok(b);
    assert items[1..] == [ArticleB()];
    assert WalkIntended([ArticleB()]) == [ToNewsIntended(b)] + WalkIntended([]) == [ToNewsIntended(b)];
    assert WalkIntended(items) == [ToNewsIntended(a)] + WalkIntended([ArticleB()]);
    assert ExtractIntended(Some(newsJSON), parse) == Some(WalkIntended(items));
    assert ToNewsIntended(a) == News("T1", "World", "2020-01-01T00:00:00Z", "http://x/1", "Jane Doe");
    assert ToNewsIntended(b) == News("T2", "", "", "", "");
    assert [ToNewsIntended(a)] + [ToNewsIntended(b)] == [ToNewsIntended(a), ToNewsIntended(b)];
  }

  /** An element that supplies every field leaves nothing for the carried locals
      to decide. */
  lemma CompleteIgnoresCarry(x: Json, st: Carry)
    requires ItemOk(x)
    requires forall f :: Supplied(x, f).Some?
    ensures Step(st, x) == Step(Init, x)
  {
    var a := Step(st, x).value;
    var b := Step(Init, x).value;
    assert a.Get(Title) == b.Get(Title);
    assert a.Get(Section) == b.Get(Section);
    assert a.Get(Date) == b.Get(Date);
    assert a.Get(Url) == b.Get(Url);
    assert a.Get(Author) == b.Get(Author);
  }

  /** Where the document has no carry-over to do (every element supplies every
      field) the two walks differ only by the url/author exchange. */
  lemma {:induction false} SameButSwappedWhenComplete(items: seq<Json>, st: Carry)
    requires forall j :: 0 <= j < |items| ==> ItemOk(items[j])
    requires forall j, f :: 0 <= j < |items| ==> Supplied(items[j], f).Some?
    ensures |Walk(items, st)| == |WalkIntended(items)| == |items|
    ensures forall i :: 0 <= i < |items| ==>
              && Walk(items, st)[i].url == WalkIntended(items)[i].author
              && Walk(items, st)[i].author == WalkIntended(items)[i].url
              && Walk(items, st)[i].title == WalkIntended(items)[i].title
              && Walk(items, st)[i].section == WalkIntended(items)[i].section
              && Walk(items, st)[i].time == WalkIntended(items)[i].time
  {
    if |items| > 0 {
      CompleteIgnoresCarry(items[0], st);
      var c := Step(Init, items[0]).value;
      SameButSwappedWhenComplete(items[1..], c);
      var w := Walk(items, st);
      var v := WalkIntended(items);
      assert w == [ToNews(c)] + Walk(items[1..], c);
      assert v == [ToNewsIntended(c)] + WalkIntended(items[1..]);
      forall i | 1 <= i < |items|
        ensures w[i] == Walk(items[1..], c)[i - 1]
        ensures v[i] == WalkIntended(items[1..])[i - 1]
      {
      }
    }
  }

  /** Every element is well formed and supplies all five fields. */
  ghost predicate Complete(items: seq<Json>) {
    && (forall j :: 0 <= j < |items| ==> ItemOk(items[j]))
    && (forall j, f :: 0 <= j < |items| ==> Supplied(items[j], f).Some?)
  }

  /** `b` is `a` with url and author put back in the slots of their own names. */
  ghost predicate Unswapped(a: seq<News>, b: seq<News>) {
    && |a| == |b|
    && forall i :: 0 <= i < |a| ==> b[i] == a[i].(url := a[i].author, author := a[i].url)
  }

  /** The corrected routine against the as-written one: the same `null` cases and
      the same empty list when the part before the loop throws; on a document whose
      elements supply every field, the same records with url and author exchanged. */
  lemma ExtractIntendedUnswaps(newsJSON: Option<string>, parse: string -> Option<Json>)
    ensures ExtractIntended(newsJSON, parse).None? <==> Extract(newsJSON, parse).None?
    ensures !IsEmpty(newsJSON) && Results(parse(newsJSON.value)).Err? ==>
              ExtractIntended(newsJSON, parse) == Extract(newsJSON, parse) == Some([])
    ensures !IsEmpty(newsJSON) && Results(parse(newsJSON.value)).Ok?
            && Complete(Results(parse(newsJSON.value)).value) ==>
              Unswapped(Extract(newsJSON, parse).value, ExtractIntended(newsJSON, parse).value)
  {
    if !IsEmpty(newsJSON) && Results(parse(newsJSON.value)).Ok? {
      var items := Results(parse(newsJSON.value)).value;
      if Complete(items) {
        SameButSwappedWhenComplete(items, Init);
        var a := Walk(items, Init);
        var b := WalkIntended(items);
        assert Extract(newsJSON, parse) == Some(a);
        assert ExtractIntended(newsJSON, parse) == Some(b);
        forall i | 0 <= i < |a|
          ensures b[i] == a[i].(url := a[i].author, author := a[i].url)
        {
        }
      }
    }
  }
}
