/** The request logic of NetRequest.ts `Request` with the `http` layer taken
    away: what is sent (method and body), and how the stream of response and
    request events settles the returned promise exactly once. */
module NetRequest {
  import opened Wrappers

  datatype HttpMethod = Get | Post

  /** `RequestOption<T>`: the optional fields are `undefined` when absent. */
  datatype RequestOption<T> = RequestOption(host: string, port: int, path: Option<string>,
                                            timeOut: Option<int>, content: Option<T>)

  /** What `Request` hands to `http.request` and then to `request.end`. */
  datatype Outgoing = Outgoing(host: string, port: int, path: Option<string>, httpMethod: HttpMethod,
                               timeout: Option<int>, body: Option<string>)

  /** `NetResponse<T>`: the value the promise resolves with. */
  datatype NetResponse<T> = NetResponse(success: bool, statusCode: Option<int>, content: Option<T>,
                                        msg: Option<string>, location: Option<string>)

  /** The request leg: the method is POST when the content is truthy, and
      only a POST carries a body, the JSON text of the content. JavaScript
      truthiness and `JSON.stringify` are parameters. */
  function Prepare<T>(option: RequestOption<T>, truthy: T -> bool, stringify: T -> string): (o: Outgoing)
    ensures o.httpMethod == Post <==> option.content.Some? && truthy(option.content.value)
    ensures o.body.Some? <==> o.httpMethod == Post
    ensures o.body.Some? ==> option.content.Some? && o.body.value == stringify(option.content.value)
    ensures o.host == option.host && o.port == option.port && o.path == option.path
    ensures o.timeout == option.timeOut
  {
    var post := option.content.Some? && truthy(option.content.value);
    Outgoing(option.host, option.port, option.path, if post then Post else Get, option.timeOut,
             if post then Some(stringify(option.content.value)) else None)
  }

  /** JavaScript truthiness of `res.statusCode`: present and non-zero. */
  predicate TruthyStatus(status: Option<int>)
  {
    status.Some? && status.value != 0
  }

  predicate IsRedirect(status: Option<int>)
  {
    status == Some(301) || status == Some(302)
  }

  /** The response handed to `resolve` when the response closes first,
      given the status, the `location` header, the status message and the
      accumulated body. `JSON.parse` is the partial function `parse`. */
  function Classify<T>(status: Option<int>, location: Option<string>, statusMessage: Option<string>,
                       body: string, parse: string -> Option<T>): (r: NetResponse<T>)
    ensures r.statusCode == status && r.msg == statusMessage
    ensures r.success <==> TruthyStatus(status) && status.value < 400 && !IsRedirect(status) && parse(body).Some?
    ensures r.content.Some? <==> r.success
    ensures r.success ==> r.content == parse(body)
    ensures r.location.Some? ==> IsRedirect(status)
    ensures IsRedirect(status) ==> r.location == location
  {
    if TruthyStatus(status) && status.value < 400 then
      if status.value == 302 || status.value == 301 then
        NetResponse(false, status, None, statusMessage, location)
      else
        match parse(body)
        case Some(content) => NetResponse(true, status, Some(content), statusMessage, None)
        case None => NetResponse(false, status, None, statusMessage, None)
    else
      NetResponse(false, status, None, statusMessage, None)
  }

  /** The response of a request-level error: only `success: false`. */
  function RequestFailure<T>(): NetResponse<T>
  {
    NetResponse(false, None, None, None, None)
  }

  /** The events the `http` layer can deliver to the handlers of `Request`. */
  datatype Event =
    | Data(chunk: string)
    | ResponseClose(status: Option<int>, location: Option<string>, statusMessage: Option<string>)
    | ResponseError(err: string)
    | RequestError(err: string)

  /** The state shared by the handlers: the `resolved` flag, every value
      passed to `resolve` (in call order), the `data` buffer, and every error
      emitted on the side channel. */
  datatype Txn<T> = Txn(resolved: bool, resolutions: seq<NetResponse<T>>, data: string, emitted: seq<string>)

  function Start<T>(): Txn<T>
  {
    Txn(false, [], "", [])
  }

  /** One handler run. The `resolved` flag guards `resolve`: once set, no
      event resolves again; the first close or request error sets it. */
  function Step<T>(t: Txn<T>, e: Event, parse: string -> Option<T>): (r: Txn<T>)
    ensures r.resolved <==> t.resolved || e.ResponseClose? || e.RequestError?
    ensures t.resolved ==> r.resolutions == t.resolutions
    ensures !t.resolved && (e.ResponseClose? || e.RequestError?) ==> |r.resolutions| == |t.resolutions| + 1
    ensures r.data == t.data + (if e.Data? then e.chunk else "")
  {
    match e
    case Data(chunk) => t.(data := t.data + chunk)
    case ResponseError(err) => t.(emitted := t.emitted + [err])
    case ResponseClose(status, location, statusMessage) =>
      if t.resolved then t
      else t.(resolved := true,
              resolutions := t.resolutions + [Classify(status, location, statusMessage, t.data, parse)])
    case RequestError(err) =>
      var u := if t.resolved then t else t.(resolved := true, resolutions := t.resolutions + [RequestFailure()]);
      u.(emitted := u.emitted + [err])
  }

  /** The chunks of the `Data` events, concatenated in arrival order. */
  function Chunks(evs: seq<Event>): string
  {
    if |evs| == 0 then "" else (if evs[0].Data? then evs[0].chunk else "") + Chunks(evs[1..])
  }

  /** The errors of the error events, in arrival order. */
  function Errors(evs: seq<Event>): seq<string>
  {
    if |evs| == 0 then []
    else (if evs[0].ResponseError? || evs[0].RequestError? then [evs[0].err] else []) + Errors(evs[1..])
  }

  lemma {:induction false} ChunksSnoc(evs: seq<Event>, e: Event)
    ensures Chunks(evs + [e]) == Chunks(evs) + (if e.Data? then e.chunk else "")
  {
    if |evs| > 0 {
      ChunksSnoc(evs[1..], e);
      assert (evs + [e])[1..] == evs[1..] + [e];
    } else {
      assert evs + [e] == [e];
    }
  }

  lemma {:induction false} ErrorsSnoc(evs: seq<Event>, e: Event)
    ensures Errors(evs + [e]) == Errors(evs) + (if e.ResponseError? || e.RequestError? then [e.err] else [])
  {
    if |evs| > 0 {
      ErrorsSnoc(evs[1..], e);
      assert (evs + [e])[1..] == evs[1..] + [e];
    } else {
      assert evs + [e] == [e];
    }
  }

  /** The handlers run over a whole event sequence. `resolve` is called at
      most once, the flag records whether it was, the buffer holds every
      chunk and the side channel every error. */
  function Run<T>(evs: seq<Event>, parse: string -> Option<T>): (t: Txn<T>)
    ensures |t.resolutions| <= 1
    ensures t.resolved <==> |t.resolutions| == 1
    ensures t.data == Chunks(evs)
    ensures t.emitted == Errors(evs)
  {
    if |evs| == 0 then Start()
    else
      var prefix := evs[..|evs| - 1];
      var last := evs[|evs| - 1];
      ChunksSnoc(prefix, last);
      ErrorsSnoc(prefix, last);
      assert prefix + [last] == evs;
      Step(Run(prefix, parse), last, parse)
  }

  /** The value the returned promise settles with; `None` while it is pending. */
  function Outcome<T>(evs: seq<Event>, parse: string -> Option<T>): Option<NetResponse<T>>
  {
    var t := Run(evs, parse);
    if t.resolved then Some(t.resolutions[0]) else None
  }

  predicate IsTerminal(e: Event)
  {
    e.ResponseClose? || e.RequestError?
  }

  /** The response a terminal event resolves with, given the body so far. */
  function Resolution<T>(e: Event, body: string, parse: string -> Option<T>): NetResponse<T>
    requires IsTerminal(e)
  {
    if e.ResponseClose? then Classify(e.status, e.location, e.statusMessage, body, parse)
    else RequestFailure()
  }

  /** Some close or request error is among the events. */
  predicate HasTerminal(evs: seq<Event>)
  {
    exists i :: 0 <= i < |evs| && IsTerminal(evs[i])
  }

  predicate FirstTerminal(evs: seq<Event>, i: int)
  {
    0 <= i < |evs| && IsTerminal(evs[i]) && forall j :: 0 <= j < i ==> !IsTerminal(evs[j])
  }

  /** Before any close or request error the promise is pending: data and
      response errors alone never resolve it. */
  lemma {:induction false} RunPending<T>(evs: seq<Event>, parse: string -> Option<T>)
    requires forall j :: 0 <= j < |evs| ==> !IsTerminal(evs[j])
    ensures !Run(evs, parse).resolved && Run(evs, parse).resolutions == []
  {
    if |evs| > 0 {
      RunPending(evs[..|evs| - 1], parse);
    }
  }

  /** Resolve-once: the first close or request error fixes the result, built
      from the chunks that arrived before it; nothing else is ever resolved. */
  lemma {:induction false} RunDecided<T>(evs: seq<Event>, i: int, parse: string -> Option<T>)
    requires FirstTerminal(evs, i)
    ensures Run(evs, parse).resolutions == [Resolution(evs[i], Chunks(evs[..i]), parse)]
  {
    var prefix := evs[..|evs| - 1];
    if i == |evs| - 1 {
      assert prefix == evs[..i];
      RunPending(prefix, parse);
    } else {
      assert FirstTerminal(prefix, i);
      RunDecided(prefix, i, parse);
      assert prefix[..i] == evs[..i];
    }
  }

  /** The promise settles exactly when some close or request error arrives. */
  lemma RunResolved<T>(evs: seq<Event>, parse: string -> Option<T>)
    ensures Run(evs, parse).resolved <==> HasTerminal(evs)
  {
    if HasTerminal(evs) {
      var i := FirstIndex(evs);
      RunDecided(evs, i, parse);
    } else {
      RunPending(evs, parse);
    }
  }

  /** The position of the first terminal event. */
  function FirstIndex(evs: seq<Event>): (i: int)
    requires HasTerminal(evs)
    ensures FirstTerminal(evs, i)
  {
    if IsTerminal(evs[0]) then 0
    else
      assert HasTerminal(evs[1..]) by {
        var i :| 0 <= i < |evs| && IsTerminal(evs[i]);
        assert evs[1..][i - 1] == evs[i];
      }
      1 + FirstIndex(evs[1..])
  }

  /** Events after resolution change nothing about the result. */
  lemma {:induction false} RunSettled<T>(evs: seq<Event>, more: seq<Event>, parse: string -> Option<T>)
    requires Run(evs, parse).resolved
    ensures Run(evs + more, parse).resolutions == Run(evs, parse).resolutions
  {
    if |more| == 0 {
      assert evs + more == evs;
    } else {
      var init := more[..|more| - 1];
      RunSettled(evs, init, parse);
      assert (evs + more)[..|evs + more| - 1] == evs + init;
      assert (evs + more)[|evs + more| - 1] == more[|more| - 1];
    }
  }

  /** The settled value, case by case: a request error first gives bare
      failure; a close first gives the classification of the chunks that
      arrived before it. */
  lemma OutcomeCases<T>(evs: seq<Event>, i: int, parse: string -> Option<T>)
    requires FirstTerminal(evs, i)
    ensures evs[i].RequestError? ==> Outcome(evs, parse) == Some(NetResponse(false, None, None, None, None))
    ensures evs[i].ResponseClose? ==>
      Outcome(evs, parse) ==
        Some(Classify(evs[i].status, evs[i].location, evs[i].statusMessage, Chunks(evs[..i]), parse))
  {
    RunDecided(evs, i, parse);
  }

  /** `Request` as the code runs it: prepare the request, then feed each
      event to its handler, with the `resolved` flag and the `data` buffer as
      the local state the closures share. Returns what was sent, the value
      the promise settles with (`None` while pending) and the side-channel
      errors. */
  method Request<T>(option: RequestOption<T>, evs: seq<Event>, truthy: T -> bool,
                    stringify: T -> string, parse: string -> Option<T>)
    returns (sent: Outgoing, settled: Option<NetResponse<T>>, emitted: seq<string>)
    ensures sent == Prepare(option, truthy, stringify)
    ensures settled == Outcome(evs, parse)
    ensures emitted == Errors(evs)
  {
    sent := Prepare(option, truthy, stringify);
    var resolved := false;
    var data := "";
    settled := None;
    emitted := [];
    var k := 0;
    while k < |evs|
      invariant 0 <= k <= |evs|
      invariant resolved == Run(evs[..k], parse).resolved
      invariant data == Run(evs[..k], parse).data
      invariant emitted == Run(evs[..k], parse).emitted
      invariant settled == Outcome(evs[..k], parse)
    {
      assert evs[..k + 1][..k] == evs[..k];
      match evs[k] {
        case Data(chunk) =>
          data := data + chunk;
        case ResponseError(err) =>
          emitted := emitted + [err];
        case ResponseClose(status, location, statusMessage) =>
          if !resolved {
            resolved := true;
            settled := Some(Classify(status, location, statusMessage, data, parse));
          }
        case RequestError(err) =>
          if !resolved {
            resolved := true;
            settled := Some(RequestFailure());
          }
          emitted := emitted + [err];
      }
      k := k + 1;
    }
    assert evs[..k] == evs;
  }
}
