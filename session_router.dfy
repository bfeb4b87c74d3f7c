/** The request router of the streamable HTTP endpoint: it binds requests to sessions by
    their `mcp-session-id` header, keeping a registry from session id to the session's
    transport. */
module SessionRouter {
  import opened Wrappers

  type SessionId = string

  /** A session's transport, known to the router only by the values it was built with. */
  datatype Transport = Transport(mcpSessionId: SessionId, isJsonResponseEnabled: bool)

  /** The three ways a request is routed. */
  datatype Route =
    | Dispatch(transport: Transport)  // known session id: the session's transport handles it
    | CreateSession                   // no session id: a new session is created
    | Reject                          // a session id the registry does not know: 400

  /** The calls the router makes outside itself, in the order it makes them. */
  datatype Effect =
    | StartServer(sessionId: SessionId)     // the session's server task is started
    | HandleRequest(sessionId: SessionId)   // the session's transport handles the request
    | Respond(status: int, body: string)    // a plain response is sent
    | RuntimeError(message: string)         // the handler raises

  const BadRequestStatus := 400
  const BadRequestBody := "Bad Request: No valid session ID provided"
  const TaskGroupMissing := "Task group is not initialized"

  /** How a request with session header `header` is routed by registry `instances`:
      exactly one route applies; a known id is dispatched to its own transport, a
      missing id creates a session and an unknown id is rejected. */
  function Classify(instances: map<SessionId, Transport>, header: Option<SessionId>): (r: Route)
    ensures r.Dispatch? <==> header.Some? && header.value in instances
    ensures r.Dispatch? ==> r.transport == instances[header.value]
    ensures r.CreateSession? <==> header.None?
    ensures r.Reject? <==> header.Some? && header.value !in instances
  {
    if header.Some? && header.value in instances then Dispatch(instances[header.value])
    else if header.None? then CreateSession
    else Reject
  }

  /** The registry after one request; a new session's transport is registered under the
      id it was built with. */
  function NextRegistry(instances: map<SessionId, Transport>, header: Option<SessionId>,
                        newSessionId: SessionId, jsonResponse: bool): (r: map<SessionId, Transport>)
    ensures r.Keys == instances.Keys + (if header.None? then {newSessionId} else {})
    ensures header.None? ==> r[newSessionId] == Transport(newSessionId, jsonResponse)
    ensures forall id | id in instances && (header.Some? || id != newSessionId) :: r[id] == instances[id]
  {
    if Classify(instances, header).CreateSession? then
      var t := Transport(newSessionId, jsonResponse);
      instances[t.mcpSessionId := t]
    else instances
  }

  /** Only a request without a session id changes the registry; it adds the new session
      and keeps every other entry, so no session is ever removed. With a fresh id the
      registry grows by exactly one entry. */
  lemma RegistryChangesOnlyOnCreate(instances: map<SessionId, Transport>, header: Option<SessionId>,
                                    newSessionId: SessionId, jsonResponse: bool)
    ensures var next := NextRegistry(instances, header, newSessionId, jsonResponse);
      && (header.Some? ==> next == instances)
      && (header.None? ==> next == instances[newSessionId := Transport(newSessionId, jsonResponse)])
      && instances.Keys <= next.Keys
      && (forall id | id in instances && id != newSessionId :: next[id] == instances[id])
      && (newSessionId !in instances ==>
            |next.Keys| == |instances.Keys| + (if header.None? then 1 else 0))
  {
  }

  /** Once created, a session is found: a later request carrying its id is dispatched to
      its transport. */
  lemma CreatedSessionIsDispatched(instances: map<SessionId, Transport>, newSessionId: SessionId,
                                   jsonResponse: bool)
    ensures Classify(NextRegistry(instances, None, newSessionId, jsonResponse), Some(newSessionId))
      == Dispatch(Transport(newSessionId, jsonResponse))
  {
  }

  /** One request as the router sees it: its session header and the id `uuid4` would give
      a new session. */
  datatype Request = Request(header: Option<SessionId>, newSessionId: SessionId)

  /** The registry after a sequence of requests. */
  function RegistryAfter(instances: map<SessionId, Transport>, requests: seq<Request>,
                         jsonResponse: bool): map<SessionId, Transport>
    decreases |requests|
  {
    if requests == [] then instances
    else
      var r := requests[|requests| - 1];
      NextRegistry(RegistryAfter(instances, requests[..|requests| - 1], jsonResponse),
                   r.header, r.newSessionId, jsonResponse)
  }

  /** The number of requests without a session id. */
  function Creations(requests: seq<Request>): nat {
    if requests == [] then 0
    else Creations(requests[..|requests| - 1]) + (if requests[|requests| - 1].header.None? then 1 else 0)
  }

  /** The ids of the sessions the requests create. */
  function CreatedIds(requests: seq<Request>): set<SessionId> {
    if requests == [] then {}
    else
      var r := requests[|requests| - 1];
      CreatedIds(requests[..|requests| - 1]) + (if r.header.None? then {r.newSessionId} else {})
  }

  /** An id that no request proposes is not created. */
  lemma {:induction false} NotCreated(requests: seq<Request>, id: SessionId)
    requires forall i | 0 <= i < |requests| :: requests[i].newSessionId != id
    ensures id !in CreatedIds(requests)
    decreases |requests|
  {
    if requests != [] {
      var n := |requests| - 1;
      assert forall i | 0 <= i < n :: requests[..n][i] == requests[i];
      NotCreated(requests[..n], id);
    }
  }

  /** Over any sequence of requests the registry only grows: its ids are the initial
      ones and those of the sessions created, and an entry is never replaced unless a
      new session reuses its id. */
  lemma {:induction false} RegistryKeys(instances: map<SessionId, Transport>,
                                        requests: seq<Request>, jsonResponse: bool)
    ensures var after := RegistryAfter(instances, requests, jsonResponse);
      && after.Keys == instances.Keys + CreatedIds(requests)
      && (forall id | id in instances && id !in CreatedIds(requests) :: after[id] == instances[id])
    decreases |requests|
  {
    if requests != [] {
      var n := |requests| - 1;
      var prefix, r := requests[..n], requests[n];
      RegistryKeys(instances, prefix, jsonResponse);
      var before := RegistryAfter(instances, prefix, jsonResponse);
      var after := RegistryAfter(instances, requests, jsonResponse);
      if r.header.None? {
        assert after == before[r.newSessionId := Transport(r.newSessionId, jsonResponse)];
        calc {
          after.Keys;
          before.Keys + {r.newSessionId};
          instances.Keys + CreatedIds(prefix) + {r.newSessionId};
          instances.Keys + CreatedIds(requests);
        }
      } else {
        assert after == before;
        assert CreatedIds(requests) == CreatedIds(prefix);
      }
    }
  }

  /** The ids proposed for new sessions are pairwise distinct. */
  predicate DistinctNewIds(requests: seq<Request>) {
    forall i, j | 0 <= i < j < |requests| :: requests[i].newSessionId != requests[j].newSessionId
  }

  /** When the new-session ids are distinct and unused, the registry gains exactly one
      entry per request without a session id. */
  lemma {:induction false} RegistryGrowsByCreations(instances: map<SessionId, Transport>,
                                                    requests: seq<Request>, jsonResponse: bool)
    requires DistinctNewIds(requests)
    requires forall i | 0 <= i < |requests| :: requests[i].newSessionId !in instances
    ensures |RegistryAfter(instances, requests, jsonResponse).Keys| == |instances.Keys| + Creations(requests)
    decreases |requests|
  {
    if requests != [] {
      var n := |requests| - 1;
      var prefix, r := requests[..n], requests[n];
      assert forall i | 0 <= i < n :: prefix[i] == requests[i];
      RegistryGrowsByCreations(instances, prefix, jsonResponse);
      RegistryKeys(instances, prefix, jsonResponse);
      NotCreated(prefix, r.newSessionId);
      var before := RegistryAfter(instances, prefix, jsonResponse);
      RegistryChangesOnlyOnCreate(before, r.header, r.newSessionId, jsonResponse);
    }
  }

  /** The router of one server process: the session registry and the log of the calls it
      has made. */
  class Router {
    const jsonResponse: bool
    var serverInstances: map<SessionId, Transport>
    var effects: seq<Effect>

    /** Every registered transport is filed under its own session id, and every session
        that was started or handed a request is registered. */
    ghost predicate Valid()
      reads this
    {
      && (forall id | id in serverInstances :: serverInstances[id].mcpSessionId == id)
      && (forall i | 0 <= i < |effects| && (effects[i].StartServer? || effects[i].HandleRequest?) ::
            effects[i].sessionId in serverInstances)
    }

    constructor (jsonResponse: bool)
      ensures Valid()
      ensures this.jsonResponse == jsonResponse && serverInstances == map[] && effects == []
    {
      this.jsonResponse := jsonResponse;
      serverInstances := map[];
      effects := [];
    }

    /** Starts the session's server task; the session must already be registered. */
    method StartServerTask(t: Transport)
      requires Valid()
      requires t.mcpSessionId in serverInstances && serverInstances[t.mcpSessionId] == t
      modifies this
      ensures Valid()
      ensures serverInstances == old(serverInstances)
      ensures effects == old(effects) + [StartServer(t.mcpSessionId)]
    {
      effects := effects + [StartServer(t.mcpSessionId)];
    }

    /** Hands the request to the session's transport; the session must be registered. */
    method HandleBy(t: Transport)
      requires Valid()
      requires t.mcpSessionId in serverInstances && serverInstances[t.mcpSessionId] == t
      modifies this
      ensures Valid()
      ensures serverInstances == old(serverInstances)
      ensures effects == old(effects) + [HandleRequest(t.mcpSessionId)]
    {
      effects := effects + [HandleRequest(t.mcpSessionId)];
    }

    /** `handle_streamable_http` for a request whose session header is `header`.
        `newSessionId` is the id `uuid4` gives a new session and `taskGroupReady` says
        whether the application's task group has been set up. */
    method Handle(header: Option<SessionId>, newSessionId: SessionId, taskGroupReady: bool)
      returns (route: Route)
      requires Valid()
      modifies this
      ensures Valid()
      ensures route == Classify(old(serverInstances), header)
      ensures serverInstances == NextRegistry(old(serverInstances), header, newSessionId, jsonResponse)
      ensures route.Dispatch? ==> effects == old(effects) + [HandleRequest(header.value)]
      ensures route.Reject? ==> effects == old(effects) + [Respond(BadRequestStatus, BadRequestBody)]
      ensures route.CreateSession? ==>
                effects == old(effects) +
                  (if taskGroupReady then [StartServer(newSessionId), HandleRequest(newSessionId)]
                   else [RuntimeError(TaskGroupMissing)])
    {
      if header.Some? && header.value in serverInstances {
        var transport := serverInstances[header.value];
        HandleBy(transport);
        route := Dispatch(transport);
      } else if header.None? {
        var httpTransport := Transport(newSessionId, jsonResponse);
        serverInstances := serverInstances[httpTransport.mcpSessionId := httpTransport];
        route := CreateSession;
        if !taskGroupReady {
          effects := effects + [RuntimeError(TaskGroupMissing)];
          return;
        }
        StartServerTask(httpTransport);
        HandleBy(httpTransport);
      } else {
        effects := effects + [Respond(BadRequestStatus, BadRequestBody)];
        route := Reject;
      }
    }
  }
}
