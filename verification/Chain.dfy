/** The chain dispatcher: the loops that drive a request forward and a response back through the
    loaded filters, inline on a worker thread or blocking, and the two body passes. */
module Chain {
  import opened Wrappers
  import opened Headers
  import opened ChainSpec

  const MAX_REQUEST_BODY_BUFFER := 0x100_0000

  datatype HttpRequest = HttpRequest(httpMethod: string, path: string, authority: string, scheme: string, headers: seq<Header>)

  datatype HttpResponse = HttpResponse(status: nat, headers: seq<Header>, body: string)

  /** How a filter call can fail; each failure has a fixed synthetic response. */
  datatype RunError = Deadline | Trap | Instantiate | Unavailable | InvalidOutput

  function FailClosed(err: RunError): HttpResponse {
    var (status, fault, msg) :=
      match err
      case Deadline => (504, "deadline", "filter deadline exceeded")
      case Trap => (502, "trap", "filter trapped")
      case Instantiate => (502, "instantiate", "filter instantiation failed")
      case Unavailable => (503, "unavailable", "filter temporarily unavailable")
      case InvalidOutput => (502, "invalid-output", "filter returned invalid output");
    HttpResponse(status, [Header("x-plecto-fault", fault)], msg)
  }

  /** A failed filter is answered with a server error that names the fault, never with a success. */
  lemma FailClosedIsServerError(err: RunError)
    ensures 500 <= FailClosed(err).status <= 599
    ensures FailClosed(err).status == 504 <==> err == Deadline
    ensures FailClosed(err).status == 503 <==> err == Unavailable
    ensures FailClosed(err).status == 502 <==> err != Deadline && err != Unavailable
    ensures |FailClosed(err).headers| == 1 && FailClosed(err).headers[0].name == "x-plecto-fault"
    ensures forall other: RunError :: FailClosed(other).headers == FailClosed(err).headers ==> other == err
  {}

  function OversizeRequestBody(): HttpResponse {
    HttpResponse(502, [Header("x-plecto-fault", "request-body-guest-oversize")],
                 "filter returned an oversized request body")
  }

  function OversizeResponseBody(): HttpResponse {
    HttpResponse(502, [Header("x-plecto-fault", "response-body-guest-oversize")],
                 "filter returned an oversized response body")
  }

  datatype RequestDecision = Continue | Modified(edit: Edit) | ShortCircuit(response: HttpResponse)

  datatype ResponseDecision = Keep | Change(status: Option<nat>, edit: Edit) | Replace(response: HttpResponse)

  datatype BodyDecision = KeepBody | NewBody(body: string, edit: Edit) | AnswerWith(response: HttpResponse)

  /** A request body together with the headers the body hooks may edit. */
  datatype BodyMessage = BodyMessage(body: string, headers: seq<Header>)

  /** The same on the way back, remembering whether any hook rewrote the body. */
  datatype ResponseBodyMessage = ResponseBodyMessage(body: string, response: HttpResponse, transformed: bool)

  // ---------------------------------------------------------------- one step

  function RequestStep(request: HttpRequest, result: Result<RequestDecision, RunError>): Step<HttpRequest, HttpResponse> {
    match result
    case Success(Continue) => Go(request)
    case Success(Modified(edit)) => Go(request.(headers := Edited(request.headers, edit)))
    case Success(ShortCircuit(response)) => Stop(response)
    case Failure(err) => Stop(FailClosed(err))
  }

  function ResponseStep(response: HttpResponse, result: Result<ResponseDecision, RunError>): Step<HttpResponse, HttpResponse> {
    match result
    case Success(Keep) => Go(response)
    case Success(Change(status, edit)) =>
      Go(response.(status := if status.Some? then status.value else response.status,
                   headers := Edited(response.headers, edit)))
    case Success(Replace(replacement)) => Stop(replacement)
    case Failure(err) => Stop(FailClosed(err))
  }

  function RequestBodyStep(m: BodyMessage, result: Result<BodyDecision, RunError>): Step<BodyMessage, HttpResponse> {
    match result
    case Success(KeepBody) => Go(m)
    case Success(NewBody(body, edit)) =>
      if |body| > MAX_REQUEST_BODY_BUFFER then Stop(OversizeRequestBody())
      else Go(BodyMessage(body, Edited(m.headers, edit)))
    case Success(AnswerWith(response)) => Stop(response)
    case Failure(err) => Stop(FailClosed(err))
  }

  function ResponseBodyStep(m: ResponseBodyMessage, cap: nat, result: Result<BodyDecision, RunError>): Step<ResponseBodyMessage, HttpResponse> {
    match result
    case Success(KeepBody) => Go(m)
    case Success(NewBody(body, edit)) =>
      if |body| > cap then Stop(OversizeResponseBody())
      else Go(ResponseBodyMessage(body, m.response.(headers := Edited(m.response.headers, edit)), true))
    case Success(AnswerWith(replacement)) =>
      Stop(if |replacement.body| > cap then OversizeResponseBody() else replacement)
    case Failure(err) => Stop(FailClosed(err))
  }

  method HandleRequestStep(request: HttpRequest, result: Result<RequestDecision, RunError>)
    returns (step: Step<HttpRequest, HttpResponse>)
    ensures step == RequestStep(request, result)
  {
    match result
    case Success(Continue) => step := Go(request);
    case Success(Modified(edit)) =>
      var headers := ApplyEdit(request.headers, edit);
      step := Go(request.(headers := headers));
    case Success(ShortCircuit(response)) => step := Stop(response);
    case Failure(err) => step := Stop(FailClosed(err));
  }

  method HandleResponseStep(response: HttpResponse, result: Result<ResponseDecision, RunError>)
    returns (step: Step<HttpResponse, HttpResponse>)
    ensures step == ResponseStep(response, result)
  {
    match result
    case Success(Keep) => step := Go(response);
    case Success(Change(status, edit)) =>
      var changed := if status.Some? then response.(status := status.value) else response;
      var headers := ApplyEdit(changed.headers, edit);
      step := Go(changed.(headers := headers));
    case Success(Replace(replacement)) => step := Stop(replacement);
    case Failure(err) => step := Stop(FailClosed(err));
  }

  method HandleRequestBodyStep(m: BodyMessage, result: Result<BodyDecision, RunError>)
    returns (step: Step<BodyMessage, HttpResponse>)
    ensures step == RequestBodyStep(m, result)
  {
    match result
    case Success(KeepBody) => step := Go(m);
    case Success(NewBody(body, edit)) =>
      if |body| > MAX_REQUEST_BODY_BUFFER {
        return Stop(OversizeRequestBody());
      }
      var headers := ApplyEdit(m.headers, edit);
      step := Go(BodyMessage(body, headers));
    case Success(AnswerWith(response)) => step := Stop(response);
    case Failure(err) => step := Stop(FailClosed(err));
  }

  method HandleResponseBodyStep(m: ResponseBodyMessage, cap: nat, result: Result<BodyDecision, RunError>)
    returns (step: Step<ResponseBodyMessage, HttpResponse>)
    ensures step == ResponseBodyStep(m, cap, result)
  {
    match result
    case Success(KeepBody) => step := Go(m);
    case Success(NewBody(body, edit)) =>
      if |body| > cap {
        return Stop(OversizeResponseBody());
      }
      var headers := ApplyEdit(m.response.headers, edit);
      step := Go(ResponseBodyMessage(body, m.response.(headers := headers), true));
    case Success(AnswerWith(replacement)) =>
      if |replacement.body| > cap {
        return Stop(OversizeResponseBody());
      }
      step := Stop(replacement);
    case Failure(err) => step := Stop(FailClosed(err));
  }

  // ---------------------------------------------------------------- the host

  /** What the hooks of a filter do, as functions of what they see and of the host state. */
  datatype Guest<!F, !H> = Guest(
    onRequest: (F, HttpRequest, H) -> (Result<RequestDecision, RunError>, H),
    onResponse: (F, HttpRequest, HttpResponse, H) -> (Result<ResponseDecision, RunError>, H),
    onRequestBody: (F, string, H) -> (Result<BodyDecision, RunError>, H),
    onResponseBody: (F, HttpRequest, HttpResponse, string, H) -> (Result<BodyDecision, RunError>, H))
  {
    function RequestHook(): Hook<F, HttpRequest, HttpResponse, H> {
      (f, m, h) => var (result, h') := onRequest(f, m, h); (RequestStep(m, result), h')
    }

    function ResponseHook(request: HttpRequest): Hook<F, HttpResponse, HttpResponse, H> {
      (f, m, h) => var (result, h') := onResponse(f, request, m, h); (ResponseStep(m, result), h')
    }

    function RequestBodyHook(): Hook<F, BodyMessage, HttpResponse, H> {
      (f, m: BodyMessage, h) => var (result, h') := onRequestBody(f, m.body, h); (RequestBodyStep(m, result), h')
    }

    function ResponseBodyHook(request: HttpRequest, cap: nat): Hook<F, ResponseBodyMessage, HttpResponse, H> {
      (f, m: ResponseBodyMessage, h) =>
        var (result, h') := onResponseBody(f, request, m.response, m.body, h);
        (ResponseBodyStep(m, cap, result), h')
    }
  }

  datatype InlineOutcome<M> = Complete(end: End<M, HttpResponse>) | Pending(filterIndex: nat, message: M)

  /** The filter runtime: state shared by all filters, and a record of the calls made. */
  class Host<!F, !H> {
    const guest: Guest<F, H>
    var state: H
    var requests: seq<(F, HttpRequest)>
    var responses: seq<(F, HttpResponse)>

    constructor (guest: Guest<F, H>, state: H)
      ensures this.guest == guest && this.state == state && requests == [] && responses == []
    {
      this.guest := guest;
      this.state := state;
      requests, responses := [], [];
    }

    method OnRequest(f: F, request: HttpRequest) returns (result: Result<RequestDecision, RunError>)
      modifies this
      ensures (result, state) == guest.onRequest(f, request, old(state))
      ensures requests == old(requests) + [(f, request)] && responses == old(responses)
    {
      var (r, h) := guest.onRequest(f, request, state);
      result, state := r, h;
      requests := requests + [(f, request)];
    }

    method OnResponse(f: F, request: HttpRequest, response: HttpResponse) returns (result: Result<ResponseDecision, RunError>)
      modifies this
      ensures (result, state) == guest.onResponse(f, request, response, old(state))
      ensures responses == old(responses) + [(f, response)] && requests == old(requests)
    {
      var (r, h) := guest.onResponse(f, request, response, state);
      result, state := r, h;
      responses := responses + [(f, response)];
    }

    /** Drive the request inline; `ready[k]` is whether filter `k` can run without blocking, and a
        call that would block leaves no trace. */
    method DispatchRequestInline(chain: seq<F>, request: HttpRequest, ready: seq<bool>) returns (r: InlineOutcome<HttpRequest>)
      requires |ready| == |chain|
      modifies this
      ensures responses == old(responses)
      ensures r.Complete? ==>
                var ran := Drive(guest.RequestHook(), chain, request, old(state));
                r.end == ran.end && state == ran.state && requests == old(requests) + ran.log
      ensures r.Pending? ==> r.filterIndex < |chain| && !ready[r.filterIndex]
      ensures |requests| - |old(requests)| <= |chain|
      ensures forall j :: 0 <= j < |requests| - |old(requests)| ==> ready[j]
      ensures r.Pending? ==>
                var ran := Drive(guest.RequestHook(), chain[..r.filterIndex], request, old(state));
                ran.end == Passed(r.message) && state == ran.state && requests == old(requests) + ran.log
    {
      hide Drive, Edited, FailClosed;
      ghost var hook := guest.RequestHook();
      var m := request;
      DriveNothing(hook, request, state);
      assert chain[..0] == [];
      for k := 0 to |chain|
        invariant responses == old(responses)
        invariant |requests| == |old(requests)| + k && forall j :: 0 <= j < k ==> ready[j]
        invariant var ran := Drive(hook, chain[..k], request, old(state));
                  ran.end == Passed(m) && state == ran.state && requests == old(requests) + ran.log
      {
        if !ready[k] {
          return Pending(k, m);
        }
        OneMore(hook, chain, k, request, old(state));
        var result := OnRequest(chain[k], m);
        var step := HandleRequestStep(m, result);
        match step {
          case Stop(answer) => return Complete(Answered(answer));
          case Go(next) => m := next;
        }
      }
      assert chain[..|chain|] == chain;
      r := Complete(Passed(m));
    }

    /** Blocking run from filter `start` on. */
    method DispatchRequestFrom(chain: seq<F>, start: nat, request: HttpRequest) returns (r: End<HttpRequest, HttpResponse>)
      modifies this
      ensures responses == old(responses)
      ensures var rest := if start <= |chain| then chain[start..] else [];
              var ran := Drive(guest.RequestHook(), rest, request, old(state));
              r == ran.end && state == ran.state && requests == old(requests) + ran.log
    {
      hide Drive, Edited, FailClosed;
      ghost var hook := guest.RequestHook();
      var rest := if start <= |chain| then chain[start..] else [];
      var m := request;
      DriveNothing(hook, request, state);
      assert rest[..0] == [];
      for k := 0 to |rest|
        invariant responses == old(responses)
        invariant var ran := Drive(hook, rest[..k], request, old(state));
                  ran.end == Passed(m) && state == ran.state && requests == old(requests) + ran.log
      {
        OneMore(hook, rest, k, request, old(state));
        var result := OnRequest(rest[k], m);
        var step := HandleRequestStep(m, result);
        match step {
          case Stop(answer) => return Answered(answer);
          case Go(next) => m := next;
        }
      }
      assert rest[..|rest|] == rest;
      r := Passed(m);
    }

    /** The server's use of the two: try inline, and finish on a blocking thread if a filter is
        busy.  Every pattern of busy filters gives the plain blocking run. */
    method DispatchRequest(chain: seq<F>, request: HttpRequest, ready: seq<bool>) returns (r: End<HttpRequest, HttpResponse>)
      requires |ready| == |chain|
      modifies this
      ensures var ran := Drive(guest.RequestHook(), chain, request, old(state));
              r == ran.end && state == ran.state && requests == old(requests) + ran.log
    {
      hide Drive;
      var inline := DispatchRequestInline(chain, request, ready);
      match inline {
        case Complete(end) => r := end;
        case Pending(k, m) =>
          assert chain == chain[..k] + chain[k..];
          DriveSplits(guest.RequestHook(), chain[..k], chain[k..], request, old(state));
          r := DispatchRequestFrom(chain, k, m);
      }
    }

    /** The response side, in reverse. */
    method DispatchResponseInline(chain: seq<F>, request: HttpRequest, response: HttpResponse, ready: seq<bool>)
      returns (r: InlineOutcome<HttpResponse>)
      requires |ready| == |chain|
      modifies this
      ensures requests == old(requests)
      ensures r.Complete? ==>
                var ran := Drive(guest.ResponseHook(request), Reverse(chain), response, old(state));
                r.end == ran.end && state == ran.state && responses == old(responses) + ran.log
      ensures r.Pending? ==> r.filterIndex < |chain| && !ready[r.filterIndex]
      ensures |responses| - |old(responses)| <= |chain|
      ensures forall j :: |chain| - (|responses| - |old(responses)|) <= j < |chain| ==> ready[j]
      ensures r.Pending? ==>
                var ran := Drive(guest.ResponseHook(request), Reverse(chain)[..|chain| - 1 - r.filterIndex], response, old(state));
                ran.end == Passed(r.message) && state == ran.state && responses == old(responses) + ran.log
    {
      hide Reverse, Drive, Edited, FailClosed;
      ghost var hook, order := guest.ResponseHook(request), Reverse(chain);
      var m := response;
      DriveNothing(hook, response, state);
      assert order[..0] == [];
      for k := |chain| downto 0
        invariant requests == old(requests)
        invariant |responses| == |old(responses)| + |chain| - k && forall j :: k <= j < |chain| ==> ready[j]
        invariant var ran := Drive(hook, order[..|chain| - k], response, old(state));
                  ran.end == Passed(m) && state == ran.state && responses == old(responses) + ran.log
      {
        if !ready[k] {
          return Pending(k, m);
        }
        OneMore(hook, order, |chain| - 1 - k, response, old(state));
        assert order[|chain| - 1 - k] == chain[k];
        var result := OnResponse(chain[k], request, m);
        var step := HandleResponseStep(m, result);
        match step {
          case Stop(answer) => return Complete(Answered(answer));
          case Go(next) => m := next;
        }
      }
      assert order[..|chain|] == order;
      r := Complete(Passed(m));
    }

    /** Blocking run from filter `start` down to the first; a start past the end means the last. */
    method DispatchResponseFrom(chain: seq<F>, start: nat, request: HttpRequest, response: HttpResponse)
      returns (r: End<HttpResponse, HttpResponse>)
      modifies this
      ensures requests == old(requests)
      ensures var slice := if start < |chain| then chain[..start + 1] else chain;
              var ran := Drive(guest.ResponseHook(request), Reverse(slice), response, old(state));
              r == ran.end && state == ran.state && responses == old(responses) + ran.log
    {
      hide Reverse, Drive, Edited, FailClosed;
      ghost var hook := guest.ResponseHook(request);
      var slice := if start < |chain| then chain[..start + 1] else chain;
      ghost var order := Reverse(slice);
      var m := response;
      DriveNothing(hook, response, state);
      assert order[..0] == [];
      for k := |slice| downto 0
        invariant requests == old(requests)
        invariant var ran := Drive(hook, order[..|slice| - k], response, old(state));
                  ran.end == Passed(m) && state == ran.state && responses == old(responses) + ran.log
      {
        OneMore(hook, order, |slice| - 1 - k, response, old(state));
        assert order[|slice| - 1 - k] == slice[k];
        var result := OnResponse(slice[k], request, m);
        var step := HandleResponseStep(m, result);
        match step {
          case Stop(answer) => return Answered(answer);
          case Go(next) => m := next;
        }
      }
      assert order[..|slice|] == order;
      r := Passed(m);
    }

    method DispatchResponse(chain: seq<F>, request: HttpRequest, response: HttpResponse, ready: seq<bool>)
      returns (r: End<HttpResponse, HttpResponse>)
      requires |ready| == |chain|
      modifies this
      ensures var ran := Drive(guest.ResponseHook(request), Reverse(chain), response, old(state));
              r == ran.end && state == ran.state && responses == old(responses) + ran.log
    {
      hide Reverse, Drive;
      var inline := DispatchResponseInline(chain, request, response, ready);
      match inline {
        case Complete(end) => r := end;
        case Pending(k, m) =>
          ReverseDriveSplits(guest.ResponseHook(request), chain, k, response, old(state));
          assert k == |chain| - 1 ==> chain == chain[..k + 1];
          r := DispatchResponseFrom(chain, k, request, m);
      }
    }

    /** The request body, forward through the chain; no log is kept of body hooks. */
    method DispatchRequestBody(chain: seq<F>, body: string, headers: seq<Header>) returns (r: End<BodyMessage, HttpResponse>)
      modifies this`state
      ensures var ran := Drive(guest.RequestBodyHook(), chain, BodyMessage(body, headers), old(state));
              r == ran.end && state == ran.state
    {
      hide Drive, Edited, FailClosed;
      ghost var hook := guest.RequestBodyHook();
      var m := BodyMessage(body, headers);
      DriveNothing(hook, m, state);
      assert chain[..0] == [];
      for k := 0 to |chain|
        invariant var ran := Drive(hook, chain[..k], BodyMessage(body, headers), old(state));
                  ran.end == Passed(m) && state == ran.state
      {
        OneMore(hook, chain, k, BodyMessage(body, headers), old(state));
        var (result, h) := guest.onRequestBody(chain[k], m.body, state);
        state := h;
        var step := HandleRequestBodyStep(m, result);
        match step {
          case Stop(answer) => return Answered(answer);
          case Go(next) => m := next;
        }
      }
      assert chain[..|chain|] == chain;
      r := Passed(m);
    }

    /** The response body, in reverse, under the route's cap. */
    method DispatchResponseBody(chain: seq<F>, request: HttpRequest, response: HttpResponse, body: string, cap: nat)
      returns (r: End<ResponseBodyMessage, HttpResponse>)
      modifies this`state
      ensures var ran := Drive(guest.ResponseBodyHook(request, cap), Reverse(chain),
                               ResponseBodyMessage(body, response, false), old(state));
              r == ran.end && state == ran.state
    {
      hide Reverse, Drive, Edited, FailClosed;
      ghost var hook, order := guest.ResponseBodyHook(request, cap), Reverse(chain);
      var m := ResponseBodyMessage(body, response, false);
      DriveNothing(hook, m, state);
      assert order[..0] == [];
      for k := |chain| downto 0
        invariant var ran := Drive(hook, order[..|chain| - k], ResponseBodyMessage(body, response, false), old(state));
                  ran.end == Passed(m) && state == ran.state
      {
        OneMore(hook, order, |chain| - 1 - k, ResponseBodyMessage(body, response, false), old(state));
        assert order[|chain| - 1 - k] == chain[k];
        var (result, h) := guest.onResponseBody(chain[k], request, m.response, m.body, state);
        state := h;
        var step := HandleResponseBodyStep(m, cap, result);
        match step {
          case Stop(answer) => return Answered(answer);
          case Go(next) => m := next;
        }
      }
      assert order[..|chain|] == order;
      r := Passed(m);
    }
  }

  /** The run of one filter more. */
  lemma OneMore<F, M, T, H>(hook: Hook<F, M, T, H>, fs: seq<F>, k: nat, m: M, h: H)
    requires k < |fs| && Drive(hook, fs[..k], m, h).end.Passed?
    ensures var before := Drive(hook, fs[..k], m, h);
            var (step, h') := hook(fs[k], before.end.message, before.state);
            && var log := before.log + [(fs[k], before.end.message)];
            && Drive(hook, fs[..k + 1], m, h) ==
               Ran(if step.Go? then Passed(step.message) else Answered(step.answer), h', log)
            && (step.Stop? ==> Drive(hook, fs, m, h) == Ran(Answered(step.answer), h', log))
  {
    hide Drive;
    var before := Drive(hook, fs[..k], m, h);
    assert fs[..k + 1] == fs[..k] + [fs[k]];
    DriveSplits(hook, fs[..k], [fs[k]], m, h);
    DriveOne(hook, fs[k], before.end.message, before.state);
    assert fs == fs[..k + 1] + fs[k + 1..];
    DriveSplits(hook, fs[..k + 1], fs[k + 1..], m, h);
  }

  // ---------------------------------------------------------------- what one decision does to the message

  /** The synthetic answer for a failed filter. */
  predicate IsFault(err: RunError, answer: HttpResponse) {
    match err
    case Deadline => answer == HttpResponse(504, [Header("x-plecto-fault", "deadline")], "filter deadline exceeded")
    case Trap => answer == HttpResponse(502, [Header("x-plecto-fault", "trap")], "filter trapped")
    case Instantiate => answer == HttpResponse(502, [Header("x-plecto-fault", "instantiate")], "filter instantiation failed")
    case Unavailable => answer == HttpResponse(503, [Header("x-plecto-fault", "unavailable")], "filter temporarily unavailable")
    case InvalidOutput => answer == HttpResponse(502, [Header("x-plecto-fault", "invalid-output")], "filter returned invalid output")
  }

  predicate IsOversize(fault: string, answer: HttpResponse) {
    answer.status == 502 && answer.headers == [Header("x-plecto-fault", fault)]
  }

  ghost predicate RequestFollows(before: HttpRequest, decision: Result<RequestDecision, RunError>, after: End<HttpRequest, HttpResponse>) {
    match decision
    case Success(Continue) => after == Passed(before)
    case Success(Modified(edit)) =>
      && after.Passed?
      && after.message.httpMethod == before.httpMethod && after.message.path == before.path
      && after.message.authority == before.authority && after.message.scheme == before.scheme
      && IsEditOf(before.headers, edit, after.message.headers)
    case Success(ShortCircuit(response)) => after == Answered(response)
    case Failure(err) => after.Answered? && IsFault(err, after.answer)
  }

  ghost predicate ResponseFollows(before: HttpResponse, decision: Result<ResponseDecision, RunError>, after: End<HttpResponse, HttpResponse>) {
    match decision
    case Success(Keep) => after == Passed(before)
    case Success(Change(status, edit)) =>
      && after.Passed?
      && after.message.status == (if status.Some? then status.value else before.status)
      && after.message.body == before.body
      && IsEditOf(before.headers, edit, after.message.headers)
    case Success(Replace(response)) => after == Answered(response)
    case Failure(err) => after.Answered? && IsFault(err, after.answer)
  }

  ghost predicate RequestBodyFollows(before: BodyMessage, decision: Result<BodyDecision, RunError>, after: End<BodyMessage, HttpResponse>) {
    match decision
    case Success(KeepBody) => after == Passed(before)
    case Success(NewBody(body, edit)) =>
      if |body| > 16 * 1024 * 1024 then after.Answered? && IsOversize("request-body-guest-oversize", after.answer)
      else after.Passed? && after.message.body == body && IsEditOf(before.headers, edit, after.message.headers)
    case Success(AnswerWith(response)) => after == Answered(response)
    case Failure(err) => after.Answered? && IsFault(err, after.answer)
  }

  ghost predicate ResponseBodyFollows(before: ResponseBodyMessage, cap: nat, decision: Result<BodyDecision, RunError>,
                                      after: End<ResponseBodyMessage, HttpResponse>) {
    match decision
    case Success(KeepBody) => after == Passed(before)
    case Success(NewBody(body, edit)) =>
      if |body| > cap then after.Answered? && IsOversize("response-body-guest-oversize", after.answer)
      else
        && after.Passed? && after.message.body == body && after.message.transformed
        && after.message.response.status == before.response.status
        && after.message.response.body == before.response.body
        && IsEditOf(before.response.headers, edit, after.message.response.headers)
    case Success(AnswerWith(response)) =>
      if |response.body| > cap then after.Answered? && IsOversize("response-body-guest-oversize", after.answer)
      else after == Answered(response)
    case Failure(err) => after.Answered? && IsFault(err, after.answer)
  }

  lemma FailClosedIsFault(err: RunError)
    ensures IsFault(err, FailClosed(err))
  {
  }

  /** Each filter's decision on a request, given what the filters before it left, has its effect: an
      edit is applied and changes nothing else, a response is the answer, a failure its fault. */
  lemma RequestDecisionTakesEffect<F, H>(guest: Guest<F, H>, chain: seq<F>, request: HttpRequest, h: H, k: nat)
    requires k < |chain| && Drive(guest.RequestHook(), chain[..k], request, h).end.Passed?
    ensures var before, after := Drive(guest.RequestHook(), chain[..k], request, h), Drive(guest.RequestHook(), chain[..k + 1], request, h);
            var (decision, state) := guest.onRequest(chain[k], before.end.message, before.state);
            RequestFollows(before.end.message, decision, after.end) && after.state == state
  {
    hide Drive, Edited, FailClosed, IsEditOf, IsFault;
    var before := Drive(guest.RequestHook(), chain[..k], request, h);
    OneMore(guest.RequestHook(), chain, k, request, h);
    match guest.onRequest(chain[k], before.end.message, before.state).0
    case Success(Modified(edit)) => EditedIsEdit(before.end.message.headers, edit);
    case Failure(err) => FailClosedIsFault(err);
    case _ =>
  }

  /** The same for responses, in reverse order. */
  lemma ResponseDecisionTakesEffect<F, H>(guest: Guest<F, H>, chain: seq<F>, request: HttpRequest, response: HttpResponse, h: H, k: nat)
    requires k < |chain| && Drive(guest.ResponseHook(request), Reverse(chain)[..k], response, h).end.Passed?
    ensures var hook, order := guest.ResponseHook(request), Reverse(chain);
            var before, after := Drive(hook, order[..k], response, h), Drive(hook, order[..k + 1], response, h);
            var (decision, state) := guest.onResponse(chain[|chain| - 1 - k], request, before.end.message, before.state);
            ResponseFollows(before.end.message, decision, after.end) && after.state == state
  {
    hide Drive, Edited, FailClosed, IsEditOf, IsFault, Reverse;
    var hook, order := guest.ResponseHook(request), Reverse(chain);
    var before := Drive(hook, order[..k], response, h);
    OneMore(hook, order, k, response, h);
    assert order[k] == chain[|chain| - 1 - k];
    match guest.onResponse(order[k], request, before.end.message, before.state).0
    case Success(Change(_, edit)) => EditedIsEdit(before.end.message.headers, edit);
    case Failure(err) => FailClosedIsFault(err);
    case _ =>
  }

  /** For request bodies, within the 16 MiB the guests are given. */
  lemma RequestBodyDecisionTakesEffect<F, H>(guest: Guest<F, H>, chain: seq<F>, m: BodyMessage, h: H, k: nat)
    requires k < |chain| && Drive(guest.RequestBodyHook(), chain[..k], m, h).end.Passed?
    ensures var hook := guest.RequestBodyHook();
            var before, after := Drive(hook, chain[..k], m, h), Drive(hook, chain[..k + 1], m, h);
            var (decision, state) := guest.onRequestBody(chain[k], before.end.message.body, before.state);
            RequestBodyFollows(before.end.message, decision, after.end) && after.state == state
  {
    hide Drive, Edited, FailClosed, IsEditOf, IsFault;
    var hook := guest.RequestBodyHook();
    var before := Drive(hook, chain[..k], m, h);
    OneMore(hook, chain, k, m, h);
    match guest.onRequestBody(chain[k], before.end.message.body, before.state).0
    case Success(NewBody(_, edit)) => EditedIsEdit(before.end.message.headers, edit);
    case Failure(err) => FailClosedIsFault(err);
    case _ =>
  }

  /** And for response bodies, within the route's cap, which an answer must also respect. */
  lemma ResponseBodyDecisionTakesEffect<F, H>(guest: Guest<F, H>, chain: seq<F>, request: HttpRequest, cap: nat,
                                              m: ResponseBodyMessage, h: H, k: nat)
    requires k < |chain| && Drive(guest.ResponseBodyHook(request, cap), Reverse(chain)[..k], m, h).end.Passed?
    ensures var hook, order := guest.ResponseBodyHook(request, cap), Reverse(chain);
            var before, after := Drive(hook, order[..k], m, h), Drive(hook, order[..k + 1], m, h);
            var x := before.end.message;
            var (decision, state) := guest.onResponseBody(chain[|chain| - 1 - k], request, x.response, x.body, before.state);
            ResponseBodyFollows(x, cap, decision, after.end) && after.state == state
  {
    hide Drive, Edited, FailClosed, IsEditOf, IsFault, Reverse;
    var hook, order := guest.ResponseBodyHook(request, cap), Reverse(chain);
    var before := Drive(hook, order[..k], m, h);
    var x := before.end.message;
    OneMore(hook, order, k, m, h);
    assert order[k] == chain[|chain| - 1 - k];
    match guest.onResponseBody(order[k], request, x.response, x.body, before.state).0
    case Success(NewBody(_, edit)) => EditedIsEdit(x.response.headers, edit);
    case Failure(err) => FailClosedIsFault(err);
    case _ =>
  }

  // ---------------------------------------------------------------- fail closed, caps, transformed

  /** A request reaches upstream exactly when every filter, given what the ones before it left,
      neither failed nor short-circuited. */
  lemma ForwardIffNobodyObjected<F, H>(guest: Guest<F, H>, chain: seq<F>, request: HttpRequest, h: H)
    ensures Drive(guest.RequestHook(), chain, request, h).end.Passed? <==>
            forall k :: 0 <= k < |chain| ==>
              && Drive(guest.RequestHook(), chain[..k], request, h).end.Passed?
              && var before := Drive(guest.RequestHook(), chain[..k], request, h);
                 var decision := guest.onRequest(chain[k], before.end.message, before.state).0;
                 decision.Success? && !decision.value.ShortCircuit?
  {
    hide Drive, Edited, FailClosed;
    PassedIffAllWentOn(guest.RequestHook(), chain, request, h);
  }

  /** A response goes out as the filters left it exactly when every filter, in reverse order and given
      what the ones before it left, neither failed nor replaced it. */
  lemma RespondIffNobodyObjected<F, H>(guest: Guest<F, H>, chain: seq<F>, request: HttpRequest, response: HttpResponse, h: H)
    ensures var hook, order := guest.ResponseHook(request), Reverse(chain);
            Drive(hook, order, response, h).end.Passed? <==>
            forall k :: 0 <= k < |order| ==>
              && Drive(hook, order[..k], response, h).end.Passed?
              && var before := Drive(hook, order[..k], response, h);
                 var decision := guest.onResponse(order[k], request, before.end.message, before.state).0;
                 decision.Success? && !decision.value.Replace?
  {
    hide Reverse, Drive, Edited, FailClosed;
    PassedIffAllWentOn(guest.ResponseHook(request), Reverse(chain), response, h);
  }

  /** A body decision that lets the body through: no failure, no answer, no body over the cap. */
  predicate LetsThrough(decision: Result<BodyDecision, RunError>, cap: nat) {
    decision.Success? && !decision.value.AnswerWith? && (decision.value.NewBody? ==> |decision.value.body| <= cap)
  }

  /** A request body is forwarded exactly when no hook failed, answered, or made it too long. */
  lemma ForwardBodyIffNobodyObjected<F, H>(guest: Guest<F, H>, chain: seq<F>, m: BodyMessage, h: H)
    ensures Drive(guest.RequestBodyHook(), chain, m, h).end.Passed? <==>
            forall k :: 0 <= k < |chain| ==>
              && Drive(guest.RequestBodyHook(), chain[..k], m, h).end.Passed?
              && var before := Drive(guest.RequestBodyHook(), chain[..k], m, h);
                 LetsThrough(guest.onRequestBody(chain[k], before.end.message.body, before.state).0, MAX_REQUEST_BODY_BUFFER)
  {
    hide Drive, Edited, FailClosed;
    PassedIffAllWentOn(guest.RequestBodyHook(), chain, m, h);
  }

  /** A response body likewise, in reverse order and under the route's cap. */
  lemma RespondBodyIffNobodyObjected<F, H>(guest: Guest<F, H>, chain: seq<F>, request: HttpRequest, cap: nat,
                                           m: ResponseBodyMessage, h: H)
    ensures var hook, order := guest.ResponseBodyHook(request, cap), Reverse(chain);
            Drive(hook, order, m, h).end.Passed? <==>
            forall k :: 0 <= k < |order| ==>
              && Drive(hook, order[..k], m, h).end.Passed?
              && var before := Drive(hook, order[..k], m, h);
                 var x := before.end.message;
                 LetsThrough(guest.onResponseBody(order[k], request, x.response, x.body, before.state).0, cap)
  {
    hide Reverse, Drive, Edited, FailClosed;
    PassedIffAllWentOn(guest.ResponseBodyHook(request, cap), Reverse(chain), m, h);
  }

  /** Every request body a filter is shown, and the one forwarded, fits the reserved buffer if the
      client's did. */
  lemma RequestBodiesFit<F, H(!new)>(guest: Guest<F, H>, chain: seq<F>, m: BodyMessage, h: H)
    requires |m.body| <= MAX_REQUEST_BODY_BUFFER
    ensures var ran := Drive(guest.RequestBodyHook(), chain, m, h);
            && (forall c :: c in ran.log ==> |c.1.body| <= MAX_REQUEST_BODY_BUFFER)
            && (ran.end.Passed? ==> |ran.end.message.body| <= MAX_REQUEST_BODY_BUFFER)
  {
    var hook := guest.RequestBodyHook();
    forall f, x: BodyMessage, s | f in chain && |x.body| <= MAX_REQUEST_BODY_BUFFER && hook(f, x, s).0.Go?
      ensures |hook(f, x, s).0.message.body| <= MAX_REQUEST_BODY_BUFFER
    {
      assert hook(f, x, s).0 == RequestBodyStep(x, guest.onRequestBody(f, x.body, s).0);
    }
    DriveKeeps(hook, chain, m, h, (x: BodyMessage) => |x.body| <= MAX_REQUEST_BODY_BUFFER);
  }

  /** On the way back: every body shown or sent fits the route's cap; and if no hook rewrote the
      body, it and the headers go out exactly as they came. */
  lemma ResponseBodiesFit<F, H(!new)>(guest: Guest<F, H>, chain: seq<F>, request: HttpRequest, response: HttpResponse,
                                      body: string, cap: nat, h: H)
    requires |body| <= cap
    ensures var ran := Drive(guest.ResponseBodyHook(request, cap), Reverse(chain), ResponseBodyMessage(body, response, false), h);
            && (forall c :: c in ran.log ==> |c.1.body| <= cap)
            && (ran.end.Passed? ==> |ran.end.message.body| <= cap)
            && (ran.end.Passed? && !ran.end.message.transformed ==>
                  ran.end.message.body == body && ran.end.message.response == response)
  {
    var hook := guest.ResponseBodyHook(request, cap);
    var keeps := (x: ResponseBodyMessage) =>
      |x.body| <= cap && (!x.transformed ==> x.body == body && x.response == response);
    forall f, x: ResponseBodyMessage, s | f in Reverse(chain) && keeps(x) && hook(f, x, s).0.Go?
      ensures keeps(hook(f, x, s).0.message)
    {
      assert hook(f, x, s).0 == ResponseBodyStep(x, cap, guest.onResponseBody(f, request, x.response, x.body, s).0);
    }
    DriveKeeps(hook, Reverse(chain), ResponseBodyMessage(body, response, false), h, keeps);
  }
}
