# News2 article extraction in Dafny

The News2 Android client asks the Guardian-style news API for articles and shows them
in a list. The only real logic is `QueryUtils.extractFeatureFromJson`. It takes the
response body and walks `response.results[]`, building one `News` record per element.
This project models that routine and the immutable `News` record it fills, and proves
what the routine does on every input, including the surprising cases:

- `null` or `""` input gives a `null` list, and the parser is never called. Any other
  text gives a list, never `null`.
- Malformed text, a top-level value that is not an object, or a missing or non-object
  `response` all give the empty list. So does a non-array `results`. An absent
  `results` also gives the empty list.
- The five string locals are declared once, before the loop. A key an element lacks
  keeps the value of the latest earlier element that had it, or `""` if none did.
- The author comes from `tags[0].webTitle` only. Tags after the first never matter.
- A `JSONException` inside the loop returns the records already built. They are
  exactly the records for the elements before the failing one.
- The record is built as `new News(title, section, date, author, url)`. The
  constructor's parameter order is `(title, section, time, url, author)`, so the url
  getter returns the author and the author getter returns the web URL.

Files:

- `json.dfy` (module `Json`): the parsed JSON tree and the org.json accessors the
  routine calls (`new JSONObject`, `has`, `getString`, `getJSONObject`,
  `getJSONArray`, `JSONArray.getJSONObject`). Each accessor that can throw returns a
  `Result`; `Err` stands for `JSONException`.
- `news.dfy` (module `NewsRecord`): the `News` record and its constructor.
- `query_utils.dfy` (module `QueryUtils`): the routine. `Step` is one loop iteration
  over the carried locals. `Walk` folds it over the array. `Extract` is the whole
  routine as a function. The method `ExtractFeatureFromJson` follows the Java's
  control flow with mutable locals and early returns, and is proved equal to
  `Extract`. It is split into four methods (`ExtractFeatureFromJson`,
  `ReadResults`, `ReadNewsItem`, `ReadAuthor`), and the one-iteration
  `for (j = 0; j < 1; j++)` over `tags` is written as a read of index 0.
- `properties.dfy` (module `ExtractionProperties`): lemmas that compare the routine
  with definitions that read the tree directly. For example, `Latest` gives "the
  value from the most recent element that supplied it".
- `intended.dfy` (module `Intended`): the two findings below. Each is shown on a
  concrete document, next to the corrected definition and its proved property.

The text parser is a parameter `parse: string -> Option<Json>`, where `None` means
malformed text. A Java `null` string is `None` of `Option<string>`. The `null` list
the routine can return is `None` of `Option<seq<News>>`.

Two behaviours of the code are worth stating plainly, because a reader of the routine
may expect otherwise:

- `TextUtils.isEmpty` is true only for `null` and `""`, so a blank string such as
  `" "` goes to the parser (see `QueryUtils.BlankIsNotEmpty` and
  `ExtractionProperties.MalformedDocumentIsEmptyList`).
- A missing author keeps the previous element's author, and url and author are
  passed in exchanged positions (see "## Findings").

## Model

| member | source | states |
|---|---|---|
| `Json.ParseObject` | app/src/main/java/com/example/android/NewsApp/QueryUtils.java:187 | `new JSONObject(text)` succeeds exactly when the parsed text is an object, and then yields that object's table |
| `Json.AsString` | app/src/main/java/com/example/android/NewsApp/QueryUtils.java:219 | the value `getString` reads: a string unchanged, a literal as its text; an array or object throws |
| `Json.GetString` | app/src/main/java/com/example/android/NewsApp/QueryUtils.java:197 | `getString(key)` succeeds exactly when the key is present with a string or literal value, and a string value comes back unchanged |
| `Json.GetObject` | app/src/main/java/com/example/android/NewsApp/QueryUtils.java:188 | `getJSONObject(key)` succeeds exactly when the key is present and holds an object, and returns that object |
| `Json.GetArray` | app/src/main/java/com/example/android/NewsApp/QueryUtils.java:191 | `getJSONArray(key)` succeeds exactly when the key is present and holds an array, and returns its elements |
| `Json.ArrayGetObject` | app/src/main/java/com/example/android/NewsApp/QueryUtils.java:194 | `JSONArray.getJSONObject(i)` succeeds exactly when `i` is in range and the element is an object |
| `Json.AsObject` | app/src/main/java/com/example/android/NewsApp/QueryUtils.java:194 | the type test inside `getJSONObject(i)`: succeeds exactly when the element is an object, and yields that object |
| `Json.HasIgnoresValue` | app/src/main/java/com/example/android/NewsApp/QueryUtils.java:196 | `has(key)` is true for a key whose value is JSON `null`, and adding a key changes no other key's answer |
| `NewsRecord.Create` | app/src/main/java/com/example/android/NewsApp/News.java:34-72 | each of the five getters returns the constructor argument in its own declared position (title, section, time, url, author) |
| `QueryUtils.Refresh` | app/src/main/java/com/example/android/NewsApp/QueryUtils.java:196-210 | a missing key leaves the local unchanged; a present key replaces it with `getString`'s result, or throws |
| `QueryUtils.RefreshAuthor` | app/src/main/java/com/example/android/NewsApp/QueryUtils.java:212-223 | the `tags` block succeeds exactly when `tags` is absent, or an array whose first entry, if any, is an object with a readable or absent `webTitle`; the author is then the first tag's `webTitle`, or the carried author when there is none |
| `QueryUtils.Step` | app/src/main/java/com/example/android/NewsApp/QueryUtils.java:194-223 | one iteration succeeds exactly when the element passes every accessor (`ItemOk`); each field then takes the value the element supplies, or keeps the carried value |
| `QueryUtils.ToNews` | app/src/main/java/com/example/android/NewsApp/QueryUtils.java:226-232 | the record gets the carried title, section and date in place, the author in the url slot and the url in the author slot |
| `QueryUtils.Walk` | app/src/main/java/com/example/android/NewsApp/QueryUtils.java:193-236 | never more records than elements; as many records as elements only when every element is well formed |
| `QueryUtils.Results` | app/src/main/java/com/example/android/NewsApp/QueryUtils.java:187-191 | the part before the loop succeeds exactly when the text is an object holding an object `response` whose `results`, if present, is an array |
| `QueryUtils.BlankIsNotEmpty` | app/src/main/java/com/example/android/NewsApp/QueryUtils.java:166 | `TextUtils.isEmpty` holds for `null` and for a string exactly when its length is zero, so a blank string is not empty |
| `QueryUtils.Records` | app/src/main/java/com/example/android/NewsApp/QueryUtils.java:172-244 | the `try`/`catch` gives the empty list when the part before the loop throws; otherwise at most one record per element, and one per element only when every element is well formed |
| `QueryUtils.Extract` | app/src/main/java/com/example/android/NewsApp/QueryUtils.java:164-168 | the result is `null` exactly when the input is `null` or empty |
| `QueryUtils.ThrowEndsWalk` | app/src/main/java/com/example/android/NewsApp/QueryUtils.java:239-241 | an element that throws, and every element after it, contributes no record |
| `QueryUtils.ReadNewsItem` | app/src/main/java/com/example/android/NewsApp/QueryUtils.java:196-223 | the imperative loop body, with mutable locals and early exits, computes exactly `Step` |
| `QueryUtils.ReadAuthor` | app/src/main/java/com/example/android/NewsApp/QueryUtils.java:212-223 | the imperative `tags` block, which reads index 0 only, computes the same author as the functional definition |
| `QueryUtils.ReadResults` | app/src/main/java/com/example/android/NewsApp/QueryUtils.java:178-236 | the imperative `for` loop, with mutable locals that start empty and an early exit on each exception, builds exactly the records of `Walk` from the empty state |
| `QueryUtils.ExtractFeatureFromJson` | app/src/main/java/com/example/android/NewsApp/QueryUtils.java:164-245 | the loop with mutable locals and early return on each exception gives exactly the result of `Extract` |
| `ExtractionProperties.EmptyInputIsNull` | app/src/main/java/com/example/android/NewsApp/QueryUtils.java:166-168 | `null` or `""` gives `null`, whatever the parser would have returned |
| `ExtractionProperties.MalformedDocumentIsEmptyList` | app/src/main/java/com/example/android/NewsApp/QueryUtils.java:187-188 | rejected text, a non-object top level, or a missing or non-object `response` gives the empty list, not `null` |
| `ExtractionProperties.NoResultsIsEmptyList` | app/src/main/java/com/example/android/NewsApp/QueryUtils.java:190 | a `response` without `results` gives the empty list |
| `ExtractionProperties.ResultsNotArrayIsEmptyList` | app/src/main/java/com/example/android/NewsApp/QueryUtils.java:191 | a non-array `results` gives the empty list |
| `ExtractionProperties.SameTreeSameRecords` | app/src/main/java/com/example/android/NewsApp/QueryUtils.java:170-184 | the result depends on the parsed tree alone; the locals start at `""` on every call |
| `ExtractionProperties.LatestStateEmpty` | app/src/main/java/com/example/android/NewsApp/QueryUtils.java:178-184 | before any element, every field reads `""` |
| `ExtractionProperties.StepKeepsLatest` | app/src/main/java/com/example/android/NewsApp/QueryUtils.java:196-223 | after one well-formed element, each local holds the latest value supplied so far |
| `ExtractionProperties.WalkUnfold` | app/src/main/java/com/example/android/NewsApp/QueryUtils.java:193-236 | a successful iteration appends its record, and the loop continues from the updated locals |
| `ExtractionProperties.WalkFromLatest` | app/src/main/java/com/example/android/NewsApp/QueryUtils.java:193-236 | from any carried state, record `i` is built from the latest values over elements up to `i` |
| `ExtractionProperties.CarryOver` | app/src/main/java/com/example/android/NewsApp/QueryUtils.java:178-235 | every element well formed: one record per element, in array order; each field is the latest value supplied by elements `0..i`, or `""`; url and author are exchanged |
| `ExtractionProperties.ExtractWellFormed` | app/src/main/java/com/example/android/NewsApp/QueryUtils.java:187-244 | for a document whose `results` holds N well-formed elements, the routine returns N records, record `i` built from the latest values up to element `i` |
| `ExtractionProperties.FirstTagOnly` | app/src/main/java/com/example/android/NewsApp/QueryUtils.java:212-223 | two elements whose `tags` agree on the first entry behave identically in the loop body |
| `ExtractionProperties.WalkRespectsSameStep` | app/src/main/java/com/example/android/NewsApp/QueryUtils.java:193-236 | the loop's output depends on each element only through its effect on the loop body |
| `ExtractionProperties.LaterTagsIgnored` | app/src/main/java/com/example/android/NewsApp/QueryUtils.java:215-221 | replacing the tags after index 0 of any element leaves the list unchanged |
| `ExtractionProperties.WalkLength` | app/src/main/java/com/example/android/NewsApp/QueryUtils.java:193-241 | the number of records is the number of leading well-formed elements |
| `ExtractionProperties.ThrowKeepsEarlierRecords` | app/src/main/java/com/example/android/NewsApp/QueryUtils.java:239-244 | if element `k` is the first to throw, the result is exactly the records of elements `0..k-1` |
| `ExtractionProperties.FailureGivesPrefix` | app/src/main/java/com/example/android/NewsApp/QueryUtils.java:239-244 | a run that throws yields a prefix of the list of any run agreeing with it before the failure, such as the run with the failing element repaired |
| `Intended.SwappedOnArticleA` | app/src/main/java/com/example/android/NewsApp/QueryUtils.java:226-232 | on a one-article document, the url getter returns the author "Jane Doe", not "http://x/1" |
| `Intended.CarriedOnArticleB` | app/src/main/java/com/example/android/NewsApp/QueryUtils.java:178-210 | a second article without section, date, url or tags shows the first article's values |
| `Intended.ToNewsIntended` | app/src/main/java/com/example/android/NewsApp/News.java:34-40 | corrected construction: url and author land in the slots of their own names |
| `Intended.WalkIntended` | app/src/main/java/com/example/android/NewsApp/QueryUtils.java:193-236 | corrected loop: never more records than elements, as many only when all are well formed |
| `Intended.ExtractIntended` | app/src/main/java/com/example/android/NewsApp/QueryUtils.java:164-168 | corrected routine, still `null` exactly for `null` or empty input |
| `Intended.IntendedRecordsOwnFields` | app/src/main/java/com/example/android/NewsApp/QueryUtils.java:178-232 | corrected, each record holds only its own element's values, `""` where a key is missing, with url and author in place |
| `Intended.IntendedOnArticleA` | app/src/main/java/com/example/android/NewsApp/QueryUtils.java:226-232 | corrected, the one-article document gives url "http://x/1" and author "Jane Doe" |
| `Intended.IntendedOnArticleB` | app/src/main/java/com/example/android/NewsApp/QueryUtils.java:196-210 | corrected, the second article's missing keys read `""` |
| `Intended.CompleteIgnoresCarry` | app/src/main/java/com/example/android/NewsApp/QueryUtils.java:196-223 | an element that supplies every field gives the same locals whatever was carried in |
| `Intended.SameButSwappedWhenComplete` | app/src/main/java/com/example/android/NewsApp/QueryUtils.java:196-232 | when every element supplies every field, the as-written and corrected lists differ only by the url/author exchange |
| `Intended.ExtractIntendedUnswaps` | app/src/main/java/com/example/android/NewsApp/QueryUtils.java:164-244 | the corrected routine gives `null` in the same cases and the same empty list when the part before the loop throws; when every element supplies every field, its records are the as-written ones with url and author put back in place |

## Findings

| source | as written | input that shows it | evidently intended | confidence | as-written member | corrected member |
|---|---|---|---|---|---|---|
| app/src/main/java/com/example/android/NewsApp/QueryUtils.java:226-232 | `new News(newsTitle, newsSection, newsDate, newsAuthor, newsUrl)` against the constructor `News(title, section, time, url, author)` | one article with `webUrl` "http://x/1" and first tag `webTitle` "Jane Doe": `getmUrl()` returns "Jane Doe" | `getmUrl()` returns the web URL, since NewsActivity opens it in a browser; `getmAuthor()` returns the author, since NewsAdapter shows it as the author | high; not executed | `Intended.SwappedOnArticleA` | `Intended.ToNewsIntended` |
| app/src/main/java/com/example/android/NewsApp/QueryUtils.java:178-210 | the five locals are declared before the loop and assigned only when a key is present | two articles, the second without `sectionName`: the second record's section is "World" | each record holds only its own element's values, `""` where absent | medium; not executed | `Intended.CarriedOnArticleB` | `Intended.IntendedRecordsOwnFields` |

`QueryUtils` keeps the as-written behaviour, because it models the repository.
`Intended.ExtractIntended` is the routine with both corrections, built from
`ToNewsIntended` and a walk that resets the locals for every element.

## Left out

- `fetchArticleData`, `createUrl`, `makeHttpRequest` and `readFromStream` are left
  out: they are network and stream I/O with timeouts. The model starts from the body
  they produce, which is any string or `null`. On HTTP 200 the body is the response
  read line by line and joined without the line breaks. It is `""` on a bad URL,
  another status, or an `IOException` while connecting or reading, which
  `makeHttpRequest` catches itself. It is `null` only if closing the stream throws.
  The `""` and `null` cases reach `EmptyInputIsNull`.
- The org.json text parser is left out. It is the `parse` parameter, and it also
  decides how duplicate keys and numeric literals end up in the tree.
- `Json.AsString`: a nested array or object under a key read with `getString` is
  modelled as a `JSONException`. Android's org.json would instead return that value
  rendered as JSON text, and that rendering is library behaviour not modelled here.
- `Log.e` diagnostics and the unused static `Context` are left out, since they have
  no effect on the result.
- `NewsActivity` and `NewsAdapter` are left out. They hold the activity lifecycle,
  loader, connectivity check, URI building, intents, view recycling and date
  formatting: UI code whose behaviour the Android runtime defines.
