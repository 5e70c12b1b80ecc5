/*
 * The unit of work run for one row (utils.py): `extract_information` builds
 * the output schema, one prompt per entity, and hands it to the language
 * model; `search_contact_details` runs the web search, then the scrape,
 * joins the string forms of the two responses into one text blob, runs the
 * extraction on that blob, and turns any exception into a one-key error
 * dictionary. The three external services are parameters: each call either
 * returns a value or raises with a message.
 */
module RowUnit {
  import opened PyStr

  /** A table cell or an extracted field: Python's None (or NaN), or a value
      given by its `str()` form. */
  datatype Cell = Null | Text(text: string)

  /** The outcome of one call into an external service. */
  datatype Attempt<T> = Returned(value: T) | Raised(message: string)

  /** A Python dict with string keys: its items in insertion order. */
  type Dict<V> = seq<(string, V)>

  function Keys<V>(d: Dict<V>): seq<string> {
    seq(|d|, j requires 0 <= j < |d| => d[j].0)
  }

  predicate Distinct<T(==)>(s: seq<T>) {
    forall i, j :: 0 <= i < j < |s| ==> s[i] != s[j]
  }

  /** `d[k] = v`: a key already present keeps its place and takes the new
      value, a new key goes last. */
  function DictSet<V>(d: Dict<V>, k: string, v: V): (r: Dict<V>)
    requires Distinct(Keys(d))
    ensures Distinct(Keys(r))
    ensures Keys(r) == if k in Keys(d) then Keys(d) else Keys(d) + [k]
    ensures forall j :: 0 <= j < |d| ==> r[j].1 == if d[j].0 == k then v else d[j].1
    ensures k !in Keys(d) ==> r[|d|] == (k, v)
  {
    if k in Keys(d) then
      var i := FirstIndex(Keys(d), k);
      var r := d[i := (k, v)];
      assert Keys(r) == Keys(d);
      assert forall j :: 0 <= j < |d| ==> Keys(d)[j] == d[j].0;
      assert forall j :: 0 <= j < |d| && j != i ==> Keys(d)[j] != Keys(d)[i];
      r
    else
      var r := d + [(k, v)];
      assert Keys(r) == Keys(d) + [k];
      assert forall j :: 0 <= j < |d| ==> Keys(d)[j] == d[j].0 && Keys(d)[j] in Keys(d);
      r
  }

  /** The keys of a dict whose keys were `start` after assigning to the keys
      `ks` in turn: a key not yet present goes last, a present one stays. */
  function KeyOrder(start: seq<string>, ks: seq<string>): seq<string>
    decreases |ks|
  {
    if ks == [] then start
    else
      var k0 := KeyOrder(start, ks[..|ks| - 1]);
      if ks[|ks| - 1] in k0 then k0 else k0 + [ks[|ks| - 1]]
  }

  /** The existing keys stay first and in place, and each assigned key is
      added exactly once and nothing else. */
  lemma {:induction false} KeyOrderShape(start: seq<string>, ks: seq<string>)
    requires Distinct(start)
    ensures var r := KeyOrder(start, ks);
      Distinct(r) && |start| <= |r| && r[..|start|] == start &&
      forall c :: c in r <==> c in start || c in ks
    decreases |ks|
  {
    if ks != [] {
      var init := ks[..|ks| - 1];
      KeyOrderShape(start, init);
      assert ks == init + [ks[|ks| - 1]];
      var k0 := KeyOrder(start, init);
      assert (k0 + [ks[|ks| - 1]])[..|start|] == k0[..|start|];
    }
  }

  /** Assigning to `a` and then to `b` orders the keys as assigning to `a + b`. */
  lemma {:induction false} KeyOrderAppend(start: seq<string>, a: seq<string>, b: seq<string>)
    ensures KeyOrder(KeyOrder(start, a), b) == KeyOrder(start, a + b)
    decreases |b|
  {
    if b != [] {
      var n := |b|;
      KeyOrderAppend(start, a, b[..n - 1]);
      assert (a + b)[..|a + b| - 1] == a + b[..n - 1];
    } else {
      assert a + b == a;
    }
  }

  /** Index of the first occurrence of `x` in `s`. */
  function FirstIndex(s: seq<string>, x: string): (k: nat)
    requires x in s
    ensures k < |s| && s[k] == x && forall m :: 0 <= m < k ==> s[m] != x
  {
    if s[0] == x then 0 else 1 + FirstIndex(s[1..], x)
  }

  lemma {:induction false} FirstIndexExtend(s: seq<string>, e: string, x: string)
    requires x in s + [e]
    ensures x in s ==> FirstIndex(s + [e], x) == FirstIndex(s, x)
    ensures x !in s ==> FirstIndex(s + [e], x) == |s|
  {
    var k := FirstIndex(s + [e], x);
    if x in s {
      var k0 := FirstIndex(s, x);
      assert (s + [e])[k0] == x;
    }
  }

  /** Keys assigned to a fresh dict come in the order of their first assignment. */
  lemma {:induction false} KeyOrderFirstSeen(ks: seq<string>)
    ensures var r := KeyOrder([], ks);
      forall a, b :: 0 <= a < b < |r| ==>
        r[a] in ks && r[b] in ks && FirstIndex(ks, r[a]) < FirstIndex(ks, r[b])
    decreases |ks|
  {
    if ks != [] {
      var init, e := ks[..|ks| - 1], ks[|ks| - 1];
      assert ks == init + [e];
      KeyOrderFirstSeen(init);
      KeyOrderShape([], init);
      var r0 := KeyOrder([], init);
      var r := KeyOrder([], ks);
      forall a, b | 0 <= a < b < |r|
        ensures r[a] in ks && r[b] in ks && FirstIndex(ks, r[a]) < FirstIndex(ks, r[b])
      {
        assert r[a] == r0[a] && r0[a] in r0;
        FirstIndexExtend(init, e, r[a]);
        if b < |r0| {
          assert r[b] == r0[b] && r0[b] in r0;
          FirstIndexExtend(init, e, r[b]);
        } else {
          FirstIndexExtend(init, e, e);
        }
      }
    }
  }

  // ---------------------------------------------------------------------
  // extract_information: the schema handed to the language model
  // ---------------------------------------------------------------------

  /** The per-entity instruction stored under the entity's key. */
  function EntityPrompt(entity: string, information: string): string {
    "Extract " + entity + " from the given information " + information +
    " and if not present return null, type: str"
  }

  /** The schema: each distinct entity, in order of first appearance, with
      its prompt. */
  function SchemaOf(information: string, entities: seq<string>): Dict<string> {
    var ks := KeyOrder([], entities);
    seq(|ks|, j requires 0 <= j < |ks| => (ks[j], EntityPrompt(ks[j], information)))
  }

  /** One more pass of the loop: `extract_data_format[e] = prompt` turns the
      schema of `entities` into the schema of `entities + [e]`. */
  lemma SchemaStep(information: string, entities: seq<string>, e: string)
    ensures Distinct(Keys(SchemaOf(information, entities)))
    ensures DictSet(SchemaOf(information, entities), e, EntityPrompt(e, information)) ==
            SchemaOf(information, entities + [e])
  {
    var s0 := SchemaOf(information, entities);
    var ks := KeyOrder([], entities);
    assert Keys(s0) == ks;
    KeyOrderShape([], entities);
    assert (entities + [e])[..|entities|] == entities;
    var r := DictSet(s0, e, EntityPrompt(e, information));
    if e in ks {
      assert r == s0;
    } else {
      assert r == s0 + [(e, EntityPrompt(e, information))];
    }
  }

  /** The loop of `extract_information` that fills `extract_data_format`. */
  method BuildSchema(information: string, entities: seq<string>) returns (schema: Dict<string>)
    ensures schema == SchemaOf(information, entities)
  {
    schema := [];
    for i := 0 to |entities|
      invariant schema == SchemaOf(information, entities[..i])
    {
      SchemaStep(information, entities[..i], entities[i]);
      assert entities[..i + 1] == entities[..i] + [entities[i]];
      schema := DictSet(schema, entities[i], EntityPrompt(entities[i], information));
    }
    assert entities[..|entities|] == entities;
  }

  /** The schema has one key per distinct entity, in order of first
      appearance, each holding that entity's prompt; an empty entity list
      gives an empty schema. */
  lemma SchemaShape(information: string, entities: seq<string>)
    ensures var schema := SchemaOf(information, entities);
      Distinct(Keys(schema)) &&
      (forall x :: x in Keys(schema) <==> x in entities) &&
      (forall a, b :: 0 <= a < b < |schema| ==>
        schema[a].0 in entities && schema[b].0 in entities &&
        FirstIndex(entities, schema[a].0) < FirstIndex(entities, schema[b].0)) &&
      (forall j :: 0 <= j < |schema| ==> schema[j].1 == EntityPrompt(schema[j].0, information))
  {
    var schema := SchemaOf(information, entities);
    assert Keys(schema) == KeyOrder([], entities);
    KeyOrderShape([], entities);
    KeyOrderFirstSeen(entities);
  }

  // ---------------------------------------------------------------------
  // search_contact_details
  // ---------------------------------------------------------------------

  /** What the scrape returns: an HTTP response. */
  datatype HttpResponse = HttpResponse(statusCode: nat, body: string)

  /** `str()` of a `requests` response: its status line only, never its body. */
  function ResponseStr(r: HttpResponse): string {
    "<Response [" + NatToDecimal(r.statusCode) + "]>"
  }

  /** The external services one row depends on: the web search (given by the
      `str()` form of its response), the structured scrape, and the language
      model fed the blob and the schema. */
  datatype Services = Services(
    search: string -> Attempt<string>,
    scrape: string -> Attempt<HttpResponse>,
    extract: (string, Dict<string>) -> Attempt<Dict<Cell>>)

  /** One call made to an external service, with its arguments. */
  datatype ServiceCall =
    | SearchCall(query: string)
    | ScrapeCall(query: string, countryCode: string, tld: string)
    | ExtractCall(information: string, schema: Dict<string>)

  /** How a call made by the unit turned out, its value left aside. */
  function CallStatus(svc: Services, c: ServiceCall): Attempt<()> {
    match c
    case SearchCall(q) => if svc.search(q).Raised? then Raised(svc.search(q).message) else Returned(())
    case ScrapeCall(q, _, _) => if svc.scrape(q).Raised? then Raised(svc.scrape(q).message) else Returned(())
    case ExtractCall(i, s) => if svc.extract(i, s).Raised? then Raised(svc.extract(i, s).message) else Returned(())
  }

  /** The value the unit returns: the pair `(blob, extracted)`, or the
      dictionary `{"error": message}`. */
  datatype RowUnitResult =
    | Found(blob: string, fields: Dict<Cell>)
    | ErrorDict(message: string)

  /** The calls the unit made, in order, and what it returned. */
  datatype UnitRun = UnitRun(calls: seq<ServiceCall>, result: RowUnitResult)

  /** `search_contact_details(query, entities)`. The search runs first; the
      scrape runs only once the search has returned; the extraction runs only
      once both have, on the very blob the unit returns; the first call that
      raises ends the unit with its message in the error dictionary. */
  function SearchContactDetails(query: string, entities: seq<string>, svc: Services): (run: UnitRun)
    ensures 1 <= |run.calls| <= 3 && run.calls[0] == SearchCall(query)
    ensures |run.calls| >= 2 ==> run.calls[1] == ScrapeCall(query, "US", "TLD")
    ensures forall j :: 0 <= j < |run.calls| - 1 ==> CallStatus(svc, run.calls[j]).Returned?
    ensures run.result.ErrorDict? <==> CallStatus(svc, run.calls[|run.calls| - 1]).Raised?
    ensures run.result.ErrorDict? ==>
      run.result.message == CallStatus(svc, run.calls[|run.calls| - 1]).message
    ensures svc.search(query).Returned? && svc.scrape(query).Returned? ==>
      var blob := svc.search(query).value + " " + ResponseStr(svc.scrape(query).value);
      |run.calls| == 3 && run.calls[2] == ExtractCall(blob, SchemaOf(blob, entities))
    ensures run.result.Found? ==>
      |run.calls| == 3 && svc.search(query).Returned? && svc.scrape(query).Returned? &&
      run.calls[2] == ExtractCall(run.result.blob, SchemaOf(run.result.blob, entities)) &&
      run.result.blob == svc.search(query).value + " " + ResponseStr(svc.scrape(query).value) &&
      run.result.fields == svc.extract(run.result.blob, SchemaOf(run.result.blob, entities)).value
  {
    match svc.search(query)
    case Raised(m) => UnitRun([SearchCall(query)], ErrorDict(m))
    case Returned(found) =>
      match svc.scrape(query)
      case Raised(m) => UnitRun([SearchCall(query), ScrapeCall(query, "US", "TLD")], ErrorDict(m))
      case Returned(response) =>
        var blob := found + " " + ResponseStr(response);
        var schema := SchemaOf(blob, entities);
        var calls := [SearchCall(query), ScrapeCall(query, "US", "TLD"), ExtractCall(blob, schema)];
        match svc.extract(blob, schema)
        case Raised(m) => UnitRun(calls, ErrorDict(m))
        case Returned(fields) => UnitRun(calls, Found(blob, fields))
  }

  /** Two scrape outcomes that raise alike, or return the same status code. */
  predicate SameStatusLine(a: Attempt<HttpResponse>, b: Attempt<HttpResponse>) {
    (a.Raised? && b == a) ||
    (a.Returned? && b.Returned? && a.value.statusCode == b.value.statusCode)
  }

  /** The scraped body never reaches the blob or the extraction: a scrape
      that differs only in its body leaves the unit's result unchanged. */
  lemma ScrapeBodyIgnored(query: string, entities: seq<string>, svc: Services,
                          scrape2: string -> Attempt<HttpResponse>)
    requires SameStatusLine(svc.scrape(query), scrape2(query))
    ensures SearchContactDetails(query, entities, svc).result ==
            SearchContactDetails(query, entities, svc.(scrape := scrape2)).result
  {
  }
}
