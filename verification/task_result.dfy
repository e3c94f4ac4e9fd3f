/**
  The response side of `TransloaditTask`: the upload completion handler,
  which overwrites the `result` slot with the response's `results` object
  and queues the caller's completion, and the two accessors over that slot.
  The JSON parser is a function parameter; the main-queue dispatches are
  recorded as a list of completion events in the order they are queued.
 */
module TaskResult {
  import opened Bytes
  import opened Wrappers
  import opened Json

  /** `NSJSONSerialization.JSONObjectWithData`: the parsed value, or None when it throws. */
  type Parser = seq<uint8> -> Option<Json>

  /** What the session hands the handler as `uploadResponse`. */
  datatype UrlResponse = HttpResponse(statusCode: int) | OtherResponse

  /** The transport error, `uploadError`; its contents are not inspected. */
  datatype UploadError = UploadError(code: int)

  /** One queued call of the caller's completion block. */
  datatype Completion = Completion(json: Option<JsonObject>, response: Option<UrlResponse>, error: Option<UploadError>)

  /** The slot after the handler ran, and the completions it queued. */
  datatype Outcome = Outcome(slot: Option<JsonObject>, completions: seq<Completion>)

  /** The handler's guard: response data is present and the response is an HTTP one. */
  predicate Delivered(data: Option<seq<uint8>>, response: Option<UrlResponse>) {
    data.Some? && response.Some? && response.value.HttpResponse?
  }

  /** The response body as a JSON object; None when parsing throws or the top level is not an object. */
  function ParseObject(parse: Parser, data: seq<uint8>): (r: Option<JsonObject>)
    ensures r.Some? <==> parse(data).Some? && parse(data).value.Object?
    ensures r.Some? ==> parse(data) == Some(Object(r.value))
  {
    match parse(data)
    case None => None
    case Some(j) => AsObject(j)
  }

  /** `json?["results"] as? [String:AnyObject]`. */
  function ResultsOf(json: Option<JsonObject>): (r: Option<JsonObject>)
    ensures r.Some? <==> json.Some? && "results" in json.value && json.value["results"].Object?
    ensures r.Some? ==> json.value["results"] == Object(r.value)
  {
    match Lookup(json, "results")
    case None => None
    case Some(v) => AsObject(v)
  }

  /**
    The slot after a response: unchanged when data or the HTTP response is
    missing, otherwise the `results` object of the parsed body, or None
    when parsing fails or there is no such object.
   */
  function UpdateSlot(prior: Option<JsonObject>, data: Option<seq<uint8>>, response: Option<UrlResponse>,
                      parse: Parser): (slot: Option<JsonObject>)
    ensures !Delivered(data, response) ==> slot == prior
    ensures Delivered(data, response) ==>
              (slot.Some? <==> (exists m: JsonObject :: parse(data.value) == Some(Object(m)) && "results" in m && m["results"].Object?))
    ensures Delivered(data, response) && slot.Some? ==>
              exists m: JsonObject :: parse(data.value) == Some(Object(m)) && "results" in m && m["results"] == Object(slot.value)
  {
    if Delivered(data, response) then
      var json := ParseObject(parse, data.value);
      assert json.Some? ==> parse(data.value) == Some(Object(json.value));
      ResultsOf(json)
    else prior
  }

  /** `resultSteps`: the step names of the stored results, None while the slot is empty. */
  function ResultSteps(slot: Option<JsonObject>): (steps: Option<set<string>>)
    ensures steps.None? <==> slot.None?
    ensures steps.Some? ==> forall name :: name in steps.value <==> name in slot.value
  {
    match slot
    case None => None
    case Some(result) => Some(result.Keys)
  }

  /**
    `subscript(stepName:)`: the first per-file result of a step; None when
    the slot is empty, the step is absent, its value is not a list of
    objects, or the list is empty.
   */
  function StepResult(slot: Option<JsonObject>, stepName: string): (r: Option<JsonObject>)
    ensures r.Some? <==>
              && slot.Some? && stepName in slot.value
              && AsObjectArray(slot.value[stepName]).Some?
              && |slot.value[stepName].items| > 0
    ensures r.Some? ==> slot.value[stepName].items[0] == Object(r.value)
  {
    match Lookup(slot, stepName)
    case None => None
    case Some(v) =>
      match AsObjectArray(v)
      case None => None
      case Some(objects) => if |objects| == 0 then None else Some(objects[0])
  }

  /**
    The upload completion handler as written: a transport error queues a
    completion with no JSON, and then, without returning, the guard queues
    a second one, either again with no JSON or with the parsed body.
   */
  function Handle(prior: Option<JsonObject>, data: Option<seq<uint8>>, response: Option<UrlResponse>,
                  error: Option<UploadError>, parse: Parser): (out: Outcome)
    ensures out.slot == UpdateSlot(prior, data, response, parse)
    ensures |out.completions| == if error.Some? then 2 else 1
    ensures error.Some? ==> out.completions[0] == Completion(None, response, error)
    ensures forall c :: c in out.completions ==> c.response == response && c.error == error
    ensures out.completions[|out.completions| - 1]
              == Completion(if Delivered(data, response) then ParseObject(parse, data.value) else None, response, error)
  {
    var onError := if error.Some? then [Completion(None, response, error)] else [];
    if !Delivered(data, response) then
      Outcome(prior, onError + [Completion(None, response, error)])
    else
      var json := ParseObject(parse, data.value);
      Outcome(ResultsOf(json), onError + [Completion(json, response, error)])
  }

  /**
    The handler with a `return` after the error completion: every response
    queues exactly one completion, and a transport error leaves the slot
    as it was.
   */
  function HandleOnce(prior: Option<JsonObject>, data: Option<seq<uint8>>, response: Option<UrlResponse>,
                      error: Option<UploadError>, parse: Parser): (out: Outcome)
    ensures |out.completions| == 1
    ensures out.completions[0].response == response && out.completions[0].error == error
    ensures error.Some? ==> out.slot == prior && out.completions[0].json.None?
    ensures error.None? ==> out.slot == UpdateSlot(prior, data, response, parse)
    ensures error.None? ==>
              out.completions[0].json == (if Delivered(data, response) then ParseObject(parse, data.value) else None)
  {
    if error.Some? then Outcome(prior, [Completion(None, response, error)])
    else Handle(prior, data, response, error, parse)
  }

  /** Without a transport error the corrected handler behaves exactly as the one written. */
  lemma HandleOnceWithoutError(prior: Option<JsonObject>, data: Option<seq<uint8>>, response: Option<UrlResponse>,
                               parse: Parser)
    ensures HandleOnce(prior, data, response, None, parse) == Handle(prior, data, response, None, parse)
  {
  }

  /** A transport error that still delivers a body makes the handler as written complete twice. */
  lemma DoubleCompletion(parse: Parser)
    ensures var out := Handle(None, Some([]), Some(HttpResponse(500)), Some(UploadError(-1001)), parse);
            |out.completions| == 2
            && out.completions[0].json.None?
            && out.completions[1] == Completion(ParseObject(parse, []), Some(HttpResponse(500)), Some(UploadError(-1001)))
  {
  }

  /** The slot after a delivered response does not depend on what it held before. */
  lemma DeliveredOverwrites(p1: Option<JsonObject>, p2: Option<JsonObject>, data: Option<seq<uint8>>,
                            response: Option<UrlResponse>, parse: Parser)
    requires Delivered(data, response)
    ensures UpdateSlot(p1, data, response, parse) == UpdateSlot(p2, data, response, parse)
  {
  }

  /** Handling the same response twice leaves the slot as handling it once. */
  lemma UpdateIdempotent(prior: Option<JsonObject>, data: Option<seq<uint8>>, response: Option<UrlResponse>,
                         parse: Parser)
    ensures var once := UpdateSlot(prior, data, response, parse);
            UpdateSlot(once, data, response, parse) == once
  {
  }

  /**
    After a delivered response whose body parses to an object with a
    `results` object `r`, the accessors read `r`: its keys are the steps,
    and a step's result is the first object of its list.
   */
  lemma AccessorsReadResults(prior: Option<JsonObject>, data: seq<uint8>, status: int, parse: Parser,
                             body: JsonObject, r: JsonObject, stepName: string)
    requires parse(data) == Some(Object(body))
    requires "results" in body && body["results"] == Object(r)
    ensures var slot := UpdateSlot(prior, Some(data), Some(HttpResponse(status)), parse);
            && ResultSteps(slot) == Some(r.Keys)
            && (StepResult(slot, stepName).Some? <==>
                  stepName in r && r[stepName].Array? && |r[stepName].items| > 0
                  && forall i :: 0 <= i < |r[stepName].items| ==> r[stepName].items[i].Object?)
            && (StepResult(slot, stepName).Some? ==> r[stepName].items[0] == Object(StepResult(slot, stepName).value))
  {
    var slot := UpdateSlot(prior, Some(data), Some(HttpResponse(status)), parse);
    assert slot == Some(r);
  }

  /**
    The canned response `{"results":{"original":[{"id":"abc"}]}}`, delivered
    with status 200 and no error: the slot is its `results` object, the steps
    are {"original"}, step "original" gives {"id":"abc"}, and step "missing"
    gives none.
   */
  lemma CannedResponse(prior: Option<JsonObject>, data: seq<uint8>, parse: Parser)
    requires parse(data) == Some(Object(map["results" := Object(map["original" := Array([Object(map["id" := Str("abc")])])])]))
    ensures var abc := map["id" := Str("abc")];
            var slot := Handle(prior, Some(data), Some(HttpResponse(200)), None, parse).slot;
            && slot == Some(map["original" := Array([Object(abc)])])
            && ResultSteps(slot) == Some({"original"})
            && StepResult(slot, "original") == Some(abc)
            && StepResult(slot, "missing") == None
  {
    var abc := map["id" := Str("abc")];
    var r := map["original" := Array([Object(abc)])];
    var body := map["results" := Object(r)];
    var slot := Handle(prior, Some(data), Some(HttpResponse(200)), None, parse).slot;
    AccessorsReadResults(prior, data, 200, parse, body, r, "original");
    assert slot == Some(r);
    var items := [Object(abc)];
    assert forall i :: 0 <= i < |items| ==> items[i].Object?;
    var objects := AsObjectArray(Array(items)).value;
    assert |objects| == 1 && objects[0] == abc;
    assert "missing" !in r;
    assert r.Keys == {"original"};
    assert StepResult(slot, "original") == Some(abc);
  }
}
