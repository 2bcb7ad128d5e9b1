/** What `extractFeatureFromJson` promises, stated against definitions that read the
    JSON tree directly rather than replaying the loop.
 */
module ExtractionProperties {
  import opened Json
  import opened NewsRecord
  import opened QueryUtils

  // ---------------------------------------------------------------------------
  // Reference definitions
  // ---------------------------------------------------------------------------

  /** The value field `f` holds after the elements `seen`: the one the most recent
      element supplying `f` gave it, or `""` when none did. */
  function Latest(seen: seq<Json>, f: Field): string {
    if |seen| == 0 then ""
    else
      match Supplied(seen[|seen| - 1], f)
      case Some(v) => v
      case None => Latest(seen[..|seen| - 1], f)
  }

  /** All five locals after the elements `seen`. */
  function LatestState(seen: seq<Json>): Carry {
    Carry(Latest(seen, Title), Latest(seen, Section), Latest(seen, Date), Latest(seen, Url), Latest(seen, Author))
  }

  /** How many leading elements pass every accessor. */
  function OkPrefixLength(items: seq<Json>): (n: nat)
    ensures n <= |items|
  {
    if |items| == 0 then 0
    else if ItemOk(items[0]) then 1 + OkPrefixLength(items[1..])
    else 0
  }

  /** Two elements the loop body cannot tell apart, whatever the locals hold. */
  ghost predicate SameStep(x: Json, y: Json) {
    forall st :: Step(st, x) == Step(st, y)
  }

  // ---------------------------------------------------------------------------
  // Input handling before the loop
  // ---------------------------------------------------------------------------

  /** `null` or `""` gives `null`, and the parser is never consulted: any two
      parsers give the same answer. */
  lemma EmptyInputIsNull(newsJSON: Option<string>, parse: string -> Option<Json>, other: string -> Option<Json>)
    requires IsEmpty(newsJSON)
    ensures Extract(newsJSON, parse) == None
    ensures Extract(newsJSON, parse) == Extract(newsJSON, other)
  {
  }

  /** Text the parser rejects, a top-level value that is not an object, or an
      object without an object `response` gives the empty list (not `null`). A blank
      string such as `" "` is not empty and takes this path. */
  lemma MalformedDocumentIsEmptyList(newsJSON: Option<string>, parse: string -> Option<Json>)
    requires !IsEmpty(newsJSON)
    requires var tree := parse(newsJSON.value);
             || tree.None?
             || !tree.value.JObj?
             || KeyResponse !in tree.value.fields
             || !tree.value.fields[KeyResponse].JObj?
    ensures Extract(newsJSON, parse) == Some([])
  {
  }

  /** A `response` object without `results` gives the empty list. */
  lemma NoResultsIsEmptyList(newsJSON: Option<string>, parse: string -> Option<Json>, response: JsonObject)
    requires !IsEmpty(newsJSON)
    requires parse(newsJSON.value).Some? && parse(newsJSON.value).value.JObj?
    requires KeyResponse in parse(newsJSON.value).value.fields
    requires parse(newsJSON.value).value.fields[KeyResponse] == JObj(response)
    requires KeyResults !in response
    ensures Extract(newsJSON, parse) == Some([])
  {
  }

  /** A `results` value that is not an array throws before any record exists. */
  lemma ResultsNotArrayIsEmptyList(newsJSON: Option<string>, parse: string -> Option<Json>, response: JsonObject)
    requires !IsEmpty(newsJSON)
    requires parse(newsJSON.value).Some? && parse(newsJSON.value).value.JObj?
    requires KeyResponse in parse(newsJSON.value).value.fields
    requires parse(newsJSON.value).value.fields[KeyResponse] == JObj(response)
    requires KeyResults in response && !response[KeyResults].JArr?
    ensures Extract(newsJSON, parse) == Some([])
  {
  }

  /** The answer depends on the parsed tree alone: two calls whose texts parse to
      the same tree give the same list, since the locals start empty on every call. */
  lemma SameTreeSameRecords(a: Option<string>, pa: string -> Option<Json>, b: Option<string>, pb: string -> Option<Json>)
    requires !IsEmpty(a) && !IsEmpty(b)
    requires pa(a.value) == pb(b.value)
    ensures Extract(a, pa) == Extract(b, pb)
  {
  }

  // ---------------------------------------------------------------------------
  // The loop when every element is well formed: carry-over
  // ---------------------------------------------------------------------------

  lemma LatestStateEmpty()
    ensures LatestState([]) == Init
  {
  }

  /** One pass of the loop body moves the locals from "latest after `seen`" to
      "latest after `seen` and `x`". */
  lemma StepKeepsLatest(seen: seq<Json>, x: Json)
    requires ItemOk(x)
    ensures Step(LatestState(seen), x) == Ok(LatestState(seen + [x]))
  {
  }

  /** The loop body succeeding on the first element yields its record followed by
      the rest of the walk from the new locals. */
  lemma WalkUnfold(items: seq<Json>, st: Carry, next: Carry)
    requires |items| > 0 && Step(st, items[0]) == Ok(next)
    ensures Walk(items, st) == [ToNews(next)] + Walk(items[1..], next)
  {
  }

  /** Proof helper: re-indexes the elements seen after iteration `i`. */
  lemma ShiftPrefix(seen: seq<Json>, items: seq<Json>, i: int)
    requires 0 <= i < |items|
    ensures (seen + [items[0]]) + items[1..][..i] == seen + items[..i + 1]
  {
  }

  /** From the locals left by `seen`, the loop turns each well-formed element into
      the record of the latest values seen up to and including it. */
  lemma {:induction false} WalkFromLatest(seen: seq<Json>, items: seq<Json>)
    requires forall j :: 0 <= j < |items| ==> ItemOk(items[j])
    ensures |Walk(items, LatestState(seen))| == |items|
    ensures forall i :: 0 <= i < |items| ==>
              Walk(items, LatestState(seen))[i] == ToNews(LatestState(seen + items[..i + 1]))
    decreases |items|
  {
    if |items| > 0 {
      var seen' := seen + [items[0]];
      StepKeepsLatest(seen, items[0]);
      WalkUnfold(items, LatestState(seen), LatestState(seen'));
      WalkFromLatest(seen', items[1..]);
      var w := Walk(items, LatestState(seen));
      var tail := Walk(items[1..], LatestState(seen'));
      forall i | 0 <= i < |items|
        ensures w[i] == ToNews(LatestState(seen + items[..i + 1]))
      {
        ShiftPrefix(seen, items, i);
        if i > 0 {
          assert w[i] == tail[i - 1];
        }
      }
    }
  }

  /** Every element well formed: one record per element, in array order, each
      field of record `i` holding the latest value supplied by elements `0..i`
      (`""` if none), and with the url and author slots exchanged. */
  lemma CarryOver(items: seq<Json>)
    requires forall j :: 0 <= j < |items| ==> ItemOk(items[j])
    ensures |Walk(items, Init)| == |items|
    ensures forall i :: 0 <= i < |items| ==>
              && Walk(items, Init)[i].title == Latest(items[..i + 1], Title)
              && Walk(items, Init)[i].section == Latest(items[..i + 1], Section)
              && Walk(items, Init)[i].time == Latest(items[..i + 1], Date)
              && Walk(items, Init)[i].url == Latest(items[..i + 1], Author)
              && Walk(items, Init)[i].author == Latest(items[..i + 1], Url)
  {
    WalkFromLatest([], items);
    forall i | 0 <= i < |items|
      ensures Walk(items, Init)[i] == ToNews(LatestState(items[..i + 1]))
    {
      assert [] + items[..i + 1] == items[..i + 1];
    }
  }

  /** The whole routine on a document whose `results` array holds only
      well-formed elements: as many records as elements, each built from the
      latest values. */
  lemma ExtractWellFormed(newsJSON: Option<string>, parse: string -> Option<Json>, items: seq<Json>)
    requires !IsEmpty(newsJSON)
    requires Results(parse(newsJSON.value)) == Ok(items)
    requires forall j :: 0 <= j < |items| ==> ItemOk(items[j])
    ensures Extract(newsJSON, parse).Some?
    ensures |Extract(newsJSON, parse).value| == |items|
    ensures forall i :: 0 <= i < |items| ==>
              Extract(newsJSON, parse).value[i] == ToNews(LatestState(items[..i + 1]))
  {
    WalkFromLatest([], items);
    forall i | 0 <= i < |items|
      ensures Walk(items, Init)[i] == ToNews(LatestState(items[..i + 1]))
    {
      assert [] + items[..i + 1] == items[..i + 1];
    }
  }

  // ---------------------------------------------------------------------------
  // Only the first tag counts
  // ---------------------------------------------------------------------------

  /** Elements whose `tags` arrays agree on their first entry are indistinguishable
      to the loop body, whatever follows that entry. */
  lemma FirstTagOnly(o: JsonObject, first: Json, rest: seq<Json>, other: seq<Json>)
    ensures SameStep(JObj(o[KeyTags := JArr([first] + rest)]), JObj(o[KeyTags := JArr([first] + other)]))
  {
  }

  /** Exchanging elements the loop body cannot tell apart leaves the list unchanged. */
  lemma {:induction false} WalkRespectsSameStep(a: seq<Json>, b: seq<Json>, st: Carry)
    requires |a| == |b|
    requires forall i :: 0 <= i < |a| ==> SameStep(a[i], b[i])
    ensures Walk(a, st) == Walk(b, st)
  {
    if |a| > 0 {
      assert SameStep(a[0], b[0]);
      assert Step(st, a[0]) == Step(st, b[0]);
      match Step(st, a[0])
      case Err(_) =>
      case Ok(next) =>
        WalkRespectsSameStep(a[1..], b[1..], next);
    }
  }

  /** Tags after index 0 of any element never affect the list. */
  lemma LaterTagsIgnored(items: seq<Json>, i: int, o: JsonObject, first: Json, rest: seq<Json>, other: seq<Json>)
    requires 0 <= i < |items|
    ensures Walk(items[i := JObj(o[KeyTags := JArr([first] + rest)])], Init)
         == Walk(items[i := JObj(o[KeyTags := JArr([first] + other)])], Init)
  {
    FirstTagOnly(o, first, rest, other);
    var a := items[i := JObj(o[KeyTags := JArr([first] + rest)])];
    var b := items[i := JObj(o[KeyTags := JArr([first] + other)])];
    forall j | 0 <= j < |a|
      ensures SameStep(a[j], b[j])
    {
      if j != i {
        assert a[j] == b[j];
      }
    }
    WalkRespectsSameStep(a, b, Init);
  }

  // ---------------------------------------------------------------------------
  // An exception inside the loop
  // ---------------------------------------------------------------------------

  /** The loop produces exactly one record per leading well-formed element. */
  lemma {:induction false} WalkLength(items: seq<Json>, st: Carry)
    ensures |Walk(items, st)| == OkPrefixLength(items)
  {
    if |items| > 0 {
      match Step(st, items[0])
      case Err(_) =>
      case Ok(next) =>
        WalkLength(items[1..], next);
    }
  }

  /** The first element that throws ends the loop with the records of the elements
      before it, exactly as if the array had stopped there. */
  lemma {:induction false} ThrowKeepsEarlierRecords(items: seq<Json>, k: int, st: Carry)
    requires 0 <= k < |items|
    requires !ItemOk(items[k])
    requires forall j :: 0 <= j < k ==> ItemOk(items[j])
    ensures Walk(items, st) == Walk(items[..k], st)
    ensures |Walk(items, st)| == k
  {
    if k == 0 {
      assert Step(st, items[0]).Err?;
    } else {
      var next := Step(st, items[0]).value;
      ThrowKeepsEarlierRecords(items[1..], k - 1, next);
      assert items[..k][1..] == items[1..][..k - 1];
    }
  }

  /** The list of a failing run is a prefix of the list of any run that agrees with
      it on the elements before the failure, for instance the same array with the
      offending element repaired. */
  lemma {:induction false} FailureGivesPrefix(items: seq<Json>, other: seq<Json>, st: Carry)
    requires OkPrefixLength(items) <= |other|
    requires items[..OkPrefixLength(items)] == other[..OkPrefixLength(items)]
    ensures Walk(items, st) <= Walk(other, st)
  {
    var n := OkPrefixLength(items);
    if n > 0 {
      assert items[0] == items[..n][0] == other[..n][0] == other[0];
      var next := Step(st, items[0]).value;
      assert items[1..][..n - 1] == items[..n][1..] == other[..n][1..] == other[1..][..n - 1];
      FailureGivesPrefix(items[1..], other[1..], next);
    }
  }
}
