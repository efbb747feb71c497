/** Keeping authentication headers from following redirects to other origins
    (app/src/main-process/same-origin-filter.ts), and the ordered filters this is the
    first of (app/src/main-process/ordered-webrequest.ts). */
module RedirectFilter {
  import opened Text

  type Headers = map<string, string>

  /** What the filters are told of a request: its id, which redirects share, the parts of
      its current address they look at, and its headers. */
  datatype Details = Details(id: int, protocol: string, origin: string, headers: Headers)

  // ---------------------------------------------------------------- the same-origin filter

  const SafeProtocols: set<string> := {"devtools:", "file:", "chrome-extension:"}
  const UnsafeHeaders: set<string> := {"authentication", "authorization", "cookie"}

  datatype Event =
    | BeforeRequest(id: int, protocol: string, origin: string)
    | BeforeSendHeaders(details: Details)
    | Completed(id: int)

  /** The origins remembered after one more event. */
  function Step(origins: map<int, string>, e: Event): map<int, string> {
    match e
    case BeforeRequest(id, protocol, origin) =>
      if protocol !in SafeProtocols && id !in origins then origins[id := origin] else origins
    case BeforeSendHeaders(_) => origins
    case Completed(id) => origins - {id}
  }

  function Run(origins: map<int, string>, events: seq<Event>): map<int, string>
    decreases |events|
  {
    if events == [] then origins else Run(Step(origins, events[0]), events[1..])
  }

  /** The headers that may go to another origin. */
  function Sanitized(headers: Headers, lower: string -> string): Headers {
    map k | k in headers && lower(k) !in UnsafeHeaders :: headers[k]
  }

  /** The headers a hop goes on with. */
  function Passed(origins: map<int, string>, details: Details, lower: string -> string): Headers {
    if details.id !in origins || origins[details.id] == details.origin then details.headers
    else Sanitized(details.headers, lower)
  }

  // ---------------------------------------------------------------- what is remembered

  /** The events after the last completion of a request. */
  function SinceCompletion(events: seq<Event>, id: int): seq<Event> {
    if events == [] || events[|events| - 1] == Completed(id) then []
    else SinceCompletion(events[..|events| - 1], id) + [events[|events| - 1]]
  }

  predicate IsExempt(protocol: string) {
    protocol == "devtools:" || protocol == "file:" || protocol == "chrome-extension:"
  }

  /** Headers with these names, in lower case, must not go to another origin. */
  predicate IsUnsafe(name: string) {
    name == "authentication" || name == "authorization" || name == "cookie"
  }

  lemma NamedSets()
    ensures forall s :: s in SafeProtocols <==> IsExempt(s)
    ensures forall s :: s in UnsafeHeaders <==> IsUnsafe(s)
  {
  }

  /** The origin of the first hop of a request that is not over an exempt protocol. */
  function FirstOrigin(events: seq<Event>, id: int): Option<string> {
    if events == [] then None
    else if events[0].BeforeRequest? && events[0].id == id && !IsExempt(events[0].protocol)
    then Some(events[0].origin)
    else FirstOrigin(events[1..], id)
  }

  function Lookup(origins: map<int, string>, id: int): Option<string> {
    if id in origins then Some(origins[id]) else None
  }

  lemma {:induction false} RunSnoc(origins: map<int, string>, events: seq<Event>, e: Event)
    ensures Run(origins, events + [e]) == Step(Run(origins, events), e)
    decreases |events|
  {
    hide Step;
    if events == [] {
      assert [e][1..] == [] && [] + [e] == [e];
    } else {
      assert (events + [e])[1..] == events[1..] + [e];
      RunSnoc(Step(origins, events[0]), events[1..], e);
    }
  }

  lemma {:induction false} FirstOriginSnoc(events: seq<Event>, e: Event, id: int)
    ensures FirstOrigin(events + [e], id) ==
            if FirstOrigin(events, id).Some? then FirstOrigin(events, id) else FirstOrigin([e], id)
  {
    if events == [] {
      assert [] + [e] == [e];
    } else {
      assert (events + [e])[1..] == events[1..] + [e];
      FirstOriginSnoc(events[1..], e, id);
    }
  }

  /** One more event keeps what is remembered of a request right. */
  lemma StepRemembers(origins: map<int, string>, events: seq<Event>, e: Event, id: int)
    requires Lookup(origins, id) == FirstOrigin(SinceCompletion(events, id), id)
    ensures Lookup(Step(origins, e), id) == FirstOrigin(SinceCompletion(events + [e], id), id)
  {
    hide SinceCompletion, FirstOrigin, IsExempt, SafeProtocols;
    NamedSets();
    SinceCompletionSnoc(events, e, id);
    if e != Completed(id) {
      FirstOriginSnoc(SinceCompletion(events, id), e, id);
    }
    FirstOriginOne(e, id);
  }

  lemma SinceCompletionSnoc(events: seq<Event>, e: Event, id: int)
    ensures SinceCompletion(events + [e], id) == if e == Completed(id) then [] else SinceCompletion(events, id) + [e]
  {
    assert (events + [e])[..|events|] == events;
  }

  lemma FirstOriginOne(e: Event, id: int)
    ensures FirstOrigin([], id) == None
    ensures FirstOrigin([e], id) ==
            if e.BeforeRequest? && e.id == id && !IsExempt(e.protocol) then Some(e.origin) else None
  {
    assert [e][1..] == [];
  }

  /** Over every run, a request id remembers the origin of its first hop that is not
      exempt, until it completes. */
  lemma {:induction false} RemembersFirstOrigin(events: seq<Event>, id: int)
    ensures Lookup(Run(map[], events), id) == FirstOrigin(SinceCompletion(events, id), id)
    decreases |events|
  {
    if events != [] {
      var e, before := events[|events| - 1], events[..|events| - 1];
      assert events == before + [e];
      RunSnoc(map[], before, e);
      RemembersFirstOrigin(before, id);
      StepRemembers(Run(map[], before), before, e, id);
    }
  }

  /** Over every run: a hop to the remembered origin, and one of a request without one,
      goes on with its headers unchanged; a hop elsewhere goes on with exactly the headers
      outside the unsafe set. */
  lemma HopsPassSafeHeaders(events: seq<Event>, details: Details, lower: string -> string)
    ensures var first := FirstOrigin(SinceCompletion(events, details.id), details.id);
            var passed := Passed(Run(map[], events), details, lower);
            && (first == None || first == Some(details.origin) ==> passed == details.headers)
            && (first != None && first != Some(details.origin) ==>
                  && (forall k :: k in passed <==> k in details.headers && !IsUnsafe(lower(k)))
                  && forall k :: k in passed ==> passed[k] == details.headers[k])
  {
    hide Run, FirstOrigin, SinceCompletion, UnsafeHeaders, IsUnsafe;
    NamedSets();
    RemembersFirstOrigin(events, details.id);
  }

  // ---------------------------------------------------------------- the filter's listeners

  class SameOriginFilter {
    const lower: string -> string
    var requestOrigin: map<int, string>

    // The events the filter has been told of
    ghost var history: seq<Event>

    /** Every request has the origin of its first hop, since it last completed, that is not exempt. */
    ghost predicate Valid()
      reads this
    {
      forall id :: Lookup(requestOrigin, id) == FirstOrigin(SinceCompletion(history, id), id)
    }

    constructor (lower: string -> string)
      ensures Valid() && this.lower == lower && history == []
    {
      this.lower := lower;
      requestOrigin, history := map[], [];
    }

    method OnBeforeRequest(id: int, protocol: string, origin: string)
      requires Valid()
      modifies this
      ensures Valid() && history == old(history) + [BeforeRequest(id, protocol, origin)]
      ensures forall k :: k != id ==> Lookup(requestOrigin, k) == Lookup(old(requestOrigin), k)
      ensures Lookup(old(requestOrigin), id).Some? ==> requestOrigin == old(requestOrigin)
    {
      hide FirstOrigin, SinceCompletion;
      ghost var e := BeforeRequest(id, protocol, origin);
      ghost var before := requestOrigin;
      if protocol !in SafeProtocols && id !in requestOrigin {
        requestOrigin := requestOrigin[id := origin];
      }
      forall k
        ensures Lookup(requestOrigin, k) == FirstOrigin(SinceCompletion(history + [e], k), k)
      {
        StepRemembers(before, history, e, k);
      }
      history := history + [e];
    }

    method OnBeforeSendHeaders(details: Details) returns (headers: Headers)
      requires Valid()
      ensures headers == Passed(requestOrigin, details, lower)
      ensures var first := FirstOrigin(SinceCompletion(history, details.id), details.id);
              && (first == None || first == Some(details.origin) ==> headers == details.headers)
              && (first != None && first != Some(details.origin) ==>
                    && (forall k :: k in headers <==> k in details.headers && !IsUnsafe(lower(k)))
                    && forall k :: k in headers ==> headers[k] == details.headers[k])
    {
      hide FirstOrigin, SinceCompletion, UnsafeHeaders, IsUnsafe;
      NamedSets();
      assert Lookup(requestOrigin, details.id) == FirstOrigin(SinceCompletion(history, details.id), details.id);
      if details.id !in requestOrigin || requestOrigin[details.id] == details.origin {
        return details.headers;
      }
      var sanitizedHeaders: Headers := map[];
      var names := details.headers.Keys;
      while names != {}
        invariant names <= details.headers.Keys
        invariant sanitizedHeaders ==
                  map k | k in details.headers && k !in names && lower(k) !in UnsafeHeaders :: details.headers[k]
        decreases names
      {
        var k :| k in names;
        if lower(k) !in UnsafeHeaders {
          sanitizedHeaders := sanitizedHeaders[k := details.headers[k]];
        }
        names := names - {k};
      }
      return sanitizedHeaders;
    }

    method OnCompleted(id: int)
      requires Valid()
      modifies this
      ensures Valid() && history == old(history) + [Completed(id)]
      ensures forall k :: Lookup(requestOrigin, k) == if k == id then None else Lookup(old(requestOrigin), k)
    {
      hide FirstOrigin, SinceCompletion;
      ghost var before := requestOrigin;
      requestOrigin := requestOrigin - {id};
      forall k
        ensures Lookup(requestOrigin, k) == FirstOrigin(SinceCompletion(history + [Completed(id)], k), k)
      {
        StepRemembers(before, history, Completed(id), k);
      }
      history := history + [Completed(id)];
    }
  }

  // ---------------------------------------------------------------- listeners

  /** The listeners of an event. The browser is told of the first and of the last. */
  class ListenerSet<Listener(==)> {
    var listeners: seq<Listener>
    var subscribed: bool

    predicate Valid()
      reads this
    {
      && subscribed == (listeners != [])
      && forall i, j :: 0 <= i < j < |listeners| ==> listeners[i] != listeners[j]
    }

    constructor ()
      ensures Valid() && listeners == []
    {
      listeners, subscribed := [], false;
    }

    method AddEventListener(listener: Listener)
      requires Valid()
      modifies this
      ensures Valid()
      ensures listeners == if listener in old(listeners) then old(listeners) else old(listeners) + [listener]
    {
      var firstListener := |listeners| == 0;
      if listener !in listeners {
        listeners := listeners + [listener];
      }
      if firstListener {
        subscribed := true;
      }
    }

    method RemoveEventListener(listener: Listener)
      requires Valid()
      modifies this
      ensures Valid()
      ensures listener !in listeners
      ensures listener !in old(listeners) ==> listeners == old(listeners)
      ensures forall k :: 0 <= k < |old(listeners)| && old(listeners)[k] == listener ==>
                listeners == old(listeners)[..k] + old(listeners)[k + 1..]
    {
      if listener in listeners {
        var k :| 0 <= k < |listeners| && listeners[k] == listener;
        listeners := listeners[..k] + listeners[k + 1..];
      }
      if |listeners| == 0 {
        subscribed := false;
      }
    }
  }

  // ---------------------------------------------------------------- filters in order

  datatype HeaderValue = One(value: string) | Many(values: seq<string>)

  datatype SendResponse = SendResponse(cancel: bool, requestHeaders: Option<map<string, HeaderValue>>)

  function Flatten(headers: map<string, HeaderValue>): Headers {
    map k | k in headers :: if headers[k].One? then headers[k].value else Join(headers[k].values, ',')
  }

  type SendListener = Details -> SendResponse

  /** The details after listeners have been called in order, each with the headers the one
      before it left. A listener that cancels only keeps later ones from being called. */
  function SendFold(listeners: seq<SendListener>, details: Details): Details
    decreases |listeners|
  {
    if listeners == [] then details
    else
      var response := listeners[0](details);
      if response.cancel then details
      else if response.requestHeaders.None? then SendFold(listeners[1..], details)
      else SendFold(listeners[1..], details.(headers := Flatten(response.requestHeaders.value)))
  }

  method OnBeforeSendHeaders(listeners: seq<SendListener>, initialDetails: Details) returns (details: Details)
    ensures details == SendFold(listeners, initialDetails)
  {
    details := initialDetails;
    var i := 0;
    assert listeners[0..] == listeners;
    while i < |listeners|
      invariant 0 <= i <= |listeners|
      invariant SendFold(listeners[i..], details) == SendFold(listeners, initialDetails)
    {
      assert listeners[i..][1..] == listeners[i + 1..];
      var response := listeners[i](details);
      if response.cancel {
        break;
      }
      if response.requestHeaders.Some? {
        details := details.(headers := Flatten(response.requestHeaders.value));
      }
      i := i + 1;
    }
  }

  datatype RequestResponse = RequestResponse(cancel: bool, redirectURL: Option<string>)

  type RequestListener = Details -> RequestResponse

  predicate Stops(r: RequestResponse) {
    r.cancel || r.redirectURL.Some?
  }

  method OnBeforeRequest(listeners: seq<RequestListener>, details: Details) returns (response: RequestResponse)
    ensures listeners == [] ==> response == RequestResponse(false, None)
    ensures forall k ::
              (0 <= k < |listeners| && Stops(listeners[k](details)) && forall j :: 0 <= j < k ==> !Stops(listeners[j](details)))
              ==> response == listeners[k](details)
    ensures listeners != [] && (forall k :: 0 <= k < |listeners| ==> !Stops(listeners[k](details))) ==>
              response == listeners[|listeners| - 1](details)
  {
    response := RequestResponse(false, None);
    var i := 0;
    while i < |listeners|
      invariant 0 <= i <= |listeners|
      invariant forall j :: 0 <= j < i ==> !Stops(listeners[j](details))
      invariant if i == 0 then response == RequestResponse(false, None) else response == listeners[i - 1](details)
    {
      response := listeners[i](details);
      if response.cancel || response.redirectURL.Some? {
        break;
      }
      i := i + 1;
    }
  }

  /** The same-origin filter as a listener. */
  function SameOriginListener(origins: map<int, string>, lower: string -> string): SendListener {
    (d: Details) => SendResponse(false, Some(AsValues(Passed(origins, d, lower))))
  }

  function AsValues(headers: Headers): map<string, HeaderValue> {
    map k | k in headers :: One(headers[k])
  }

  /** A filter that adds at most one header: the origin of Alive sockets, or the
      authorization of image requests. */
  function AddingListener(added: Details -> Option<(string, string)>): SendListener {
    (d: Details) =>
      match added(d)
      case None => SendResponse(false, None)
      case Some((name, value)) => SendResponse(false, Some(AsValues(d.headers)[name := One(value)]))
  }

  /** The headers as a filter left them, with several values of one joined by commas. */
  predicate AreJoined(headers: map<string, HeaderValue>, joined: Headers) {
    && joined.Keys == headers.Keys
    && forall k :: k in headers ==>
         match headers[k]
         case One(value) => joined[k] == value
         case Many(values) => joined[k] == Join(values, ',')
  }

  /** A listener that was given `before` does not cancel, and the next one is given `after`:
      the same, with the headers it left if it left any. */
  predicate HandsOn(listener: SendListener, before: Details, after: Details) {
    var response := listener(before);
    && !response.cancel
    && match response.requestHeaders
       case None => after == before
       case Some(headers) => AreJoined(headers, after.headers) && after == before.(headers := after.headers)
  }

  /** The fold as calls: each listener hands on to the next, and the last details given are
      returned: to no listener when all were called, and otherwise to one that cancels. */
  lemma {:induction false} FoldIsCalls(listeners: seq<SendListener>, details: Details) returns (given: seq<Details>)
    ensures 0 < |given| <= |listeners| + 1 && given[0] == details && given[|given| - 1] == SendFold(listeners, details)
    ensures forall i :: 0 <= i < |given| - 1 ==> HandsOn(listeners[i], given[i], given[i + 1])
    ensures |given| <= |listeners| ==> listeners[|given| - 1](given[|given| - 1]).cancel
    decreases |listeners|
  {
    hide HandsOn, Flatten;
    if listeners == [] || listeners[0](details).cancel {
      given := [details];
    } else {
      var next := details;
      var response := listeners[0](details);
      if response.requestHeaders.Some? {
        next := details.(headers := Flatten(response.requestHeaders.value));
      }
      OneHandsOn(listeners[0], details);
      var rest := FoldIsCalls(listeners[1..], next);
      given := [details] + rest;
      forall i | 0 <= i < |given| - 1
        ensures HandsOn(listeners[i], given[i], given[i + 1])
      {
        if i > 0 {
          assert HandsOn(listeners[1..][i - 1], rest[i - 1], rest[i]);
        }
      }
    }
  }

  lemma OneHandsOn(listener: SendListener, details: Details)
    requires !listener(details).cancel
    ensures var response := listener(details);
            HandsOn(listener, details, if response.requestHeaders.None? then details
                                       else details.(headers := Flatten(response.requestHeaders.value)))
  {
    hide Flatten, AreJoined;
    if listener(details).requestHeaders.Some? {
      FlattenJoins(listener(details).requestHeaders.value);
    }
  }

  lemma FlattenJoins(headers: map<string, HeaderValue>)
    ensures AreJoined(headers, Flatten(headers))
  {
  }

  lemma FlattenValues(headers: Headers)
    ensures Flatten(AsValues(headers)) == headers
  {
  }

  /** What the next filter sees of a hop is what the same-origin filter passes on. */
  lemma NextFilterSeesPassed(origins: map<int, string>, lower: string -> string, rest: seq<SendListener>, details: Details)
    ensures SendFold([SameOriginListener(origins, lower)] + rest, details) ==
            SendFold(rest, details.(headers := Passed(origins, details, lower)))
  {
    hide Passed, SendFold;
    FlattenValues(Passed(origins, details, lower));
    SendFoldStep(SameOriginListener(origins, lower), rest, details);
  }

  lemma SendFoldStep(listener: SendListener, rest: seq<SendListener>, details: Details)
    ensures SendFold([listener] + rest, details) ==
            (var response := listener(details);
             if response.cancel then details
             else if response.requestHeaders.None? then SendFold(rest, details)
             else SendFold(rest, details.(headers := Flatten(response.requestHeaders.value))))
  {
    hide Flatten;
    assert ([listener] + rest)[1..] == rest;
  }

  lemma AddingFold(added: Details -> Option<(string, string)>, rest: seq<SendListener>, details: Details)
    ensures SendFold([AddingListener(added)] + rest, details) ==
            SendFold(rest, if added(details).None? then details
                           else details.(headers := details.headers[added(details).value.0 := added(details).value.1]))
  {
    hide SendFold;
    SendFoldStep(AddingListener(added), rest, details);
    if added(details).Some? {
      var (name, value) := added(details).value;
      assert Flatten(AsValues(details.headers)[name := One(value)]) == details.headers[name := value];
    }
  }

  /** With the filters in the order in which they are installed, a header of a hop to
      another origin is either outside the unsafe set and as it was, or one of those the
      two later filters add for this very hop. */
  lemma InstalledFiltersAddOnly(origins: map<int, string>, lower: string -> string, alive: Details -> Option<(string, string)>,
                                image: Details -> Option<(string, string)>, details: Details)
    requires details.id in origins && origins[details.id] != details.origin
    ensures var chain := [SameOriginListener(origins, lower), AddingListener(alive), AddingListener(image)];
            var first := details.(headers := Sanitized(details.headers, lower));
            var second := if alive(first).None? then first
                          else first.(headers := first.headers[alive(first).value.0 := alive(first).value.1]);
            var sent := SendFold(chain, details);
            && sent.id == details.id && sent.origin == details.origin
            && forall k :: k in sent.headers ==>
                 || (k in details.headers && !IsUnsafe(lower(k)) && sent.headers[k] == details.headers[k])
                 || alive(first) == Some((k, sent.headers[k]))
                 || image(second) == Some((k, sent.headers[k]))
  {
    hide SendFold, UnsafeHeaders, SameOriginListener, AddingListener, IsUnsafe, Sanitized;
    var same, a, i := SameOriginListener(origins, lower), AddingListener(alive), AddingListener(image);
    var first := details.(headers := Sanitized(details.headers, lower));
    var second := if alive(first).None? then first
                  else first.(headers := first.headers[alive(first).value.0 := alive(first).value.1]);
    assert [same, a, i] == [same] + ([a] + ([i] + []));
    NextFilterSeesPassed(origins, lower, [a] + ([i] + []), details);
    AddingFold(alive, [i] + [], first);
    AddingFold(image, [], second);
    var third := if image(second).None? then second
                 else second.(headers := second.headers[image(second).value.0 := image(second).value.1]);
    NoListeners(third);
    SanitizedIs(details.headers, lower);
    assert SendFold([same, a, i], details) == third;
  }

  lemma SanitizedIs(headers: Headers, lower: string -> string)
    ensures var r := Sanitized(headers, lower);
            forall k :: k in r ==> k in headers && !IsUnsafe(lower(k)) && r[k] == headers[k]
  {
    NamedSets();
  }

  lemma NoListeners(details: Details)
    ensures SendFold([], details) == details
  {
  }
}
