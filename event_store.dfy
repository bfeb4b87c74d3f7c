/** The in-memory event store behind resumable Server-Sent Events streams: each stream
    keeps its newest events in a bounded FIFO, and an index maps every held event id to
    its entry, so that a client reconnecting with a `Last-Event-ID` (section 9.2 of the
    WHATWG HTML Living Standard, "Server-sent events") is sent the events it missed. */
module EventStore {
  import opened Wrappers

  type EventId = string
  type StreamId = string

  /** A JSON-RPC message, carried through the store without being looked into. */
  datatype JsonRpcMessage = JsonRpcMessage(body: string)

  datatype EventEntry = EventEntry(eventId: EventId, streamId: StreamId, message: JsonRpcMessage)

  /** What the replay callback is given for each event. */
  datatype EventMessage = EventMessage(message: JsonRpcMessage, eventId: EventId)

  /** The errors `store_event` raises when the per-stream cap is not positive: building a
      deque with a negative `maxlen` raises ValueError, and with a cap of 0 the empty
      deque counts as full and reading its oldest element raises IndexError. */
  datatype StoreError = NegativeMaxLen | OldestOfEmptyDeque

  type Streams = map<StreamId, seq<EventEntry>>
  type Index = map<EventId, EventEntry>

  /** The two structures of the store: the FIFO of each stream, oldest first, and the
      index from event id to entry. */
  datatype StoreState = StoreState(streams: Streams, eventIndex: Index)

  const DefaultMaxEventsPerStream := 100

  /** The FIFO of a stream, empty for a stream not seen yet (`streams.get(s, deque())`). */
  function Fifo(streams: Streams, s: StreamId): seq<EventEntry> {
    if s in streams then streams[s] else []
  }

  /** The last `n` elements of `q`, or all of them when there are fewer. */
  function Newest(q: seq<EventEntry>, n: nat): seq<EventEntry> {
    if |q| <= n then q else q[|q| - n..]
  }

  /** `append` on a deque bounded by `cap`: a full deque drops its oldest element. */
  function BoundedAppend(q: seq<EventEntry>, cap: nat, e: EventEntry): (r: seq<EventEntry>)
    requires |q| <= cap
    ensures r == Newest(q + [e], cap)
    ensures |r| <= cap
    ensures cap > 0 ==> r[|r| - 1] == e
  {
    if cap == 0 then q
    else if |q| == cap then q[1..] + [e]
    else q + [e]
  }

  /** No FIFO is longer than the cap. */
  ghost predicate WithinCap(cap: int, streams: Streams) {
    forall s | s in streams :: |streams[s]| <= cap
  }

  /** Every held entry belongs to its stream and is indexed under its id. */
  ghost predicate HeldAreIndexed(streams: Streams, index: Index) {
    forall s, i | s in streams && 0 <= i < |streams[s]| ::
      streams[s][i].streamId == s && streams[s][i].eventId in index &&
      index[streams[s][i].eventId] == streams[s][i]
  }

  /** No id is held twice in one FIFO. */
  ghost predicate DistinctIds(q: seq<EventEntry>) {
    forall i, j | 0 <= i < j < |q| :: q[i].eventId != q[j].eventId
  }

  /** Every indexed entry is filed under its own id and held in the FIFO of its stream. */
  ghost predicate IndexedAreHeld(streams: Streams, index: Index) {
    forall id | id in index ::
      index[id].eventId == id && index[id].streamId in streams &&
      index[id] in streams[index[id].streamId]
  }

  /** The consistency of the two structures, for a per-stream cap `cap`. */
  ghost predicate Consistent(cap: int, st: StoreState) {
    && WithinCap(cap, st.streams)
    && HeldAreIndexed(st.streams, st.eventIndex)
    && (forall s | s in st.streams :: DistinctIds(st.streams[s]))
    && IndexedAreHeld(st.streams, st.eventIndex)
  }

  /** The ids held in all the FIFOs. */
  ghost function HeldIds(streams: Streams): set<EventId> {
    set s, i | s in streams && 0 <= i < |streams[s]| :: streams[s][i].eventId
  }

  /** The index keys are exactly the ids held in the FIFOs. */
  lemma IndexKeysAreHeldIds(cap: int, st: StoreState)
    requires Consistent(cap, st)
    ensures st.eventIndex.Keys == HeldIds(st.streams)
  {
    forall id | id in st.eventIndex ensures id in HeldIds(st.streams) {
      var e := st.eventIndex[id];
      var q := st.streams[e.streamId];
      var i :| 0 <= i < |q| && q[i] == e;
      assert q[i].eventId == id;
    }
  }

  /** The store after `store_event` adds the entry `e` with a positive cap: when the
      stream's FIFO is full its oldest entry leaves the index and the FIFO, and `e` is
      appended to the FIFO and indexed. */
  function Stored(cap: nat, st: StoreState, e: EventEntry): (r: StoreState)
    requires cap > 0 && |Fifo(st.streams, e.streamId)| <= cap
    ensures r.streams.Keys == st.streams.Keys + {e.streamId}
    ensures r.streams[e.streamId] == Newest(Fifo(st.streams, e.streamId) + [e], cap)
    ensures forall t | t in st.streams && t != e.streamId :: r.streams[t] == st.streams[t]
    ensures e.eventId in r.eventIndex && r.eventIndex[e.eventId] == e
  {
    var q := Fifo(st.streams, e.streamId);
    var index := if |q| == cap then st.eventIndex - {q[0].eventId} else st.eventIndex;
    StoreState(st.streams[e.streamId := BoundedAppend(q, cap, e)], index[e.eventId := e])
  }

  /** After storing, the new event is indexed and is the newest entry of its stream. */
  lemma StoredIsNewest(cap: nat, st: StoreState, e: EventEntry)
    requires cap > 0 && Consistent(cap, st) && e.eventId !in st.eventIndex
    ensures var st' := Stored(cap, st, e);
      && st'.eventIndex[e.eventId] == e
      && e.streamId in st'.streams && |st'.streams[e.streamId]| > 0
      && st'.streams[e.streamId][|st'.streams[e.streamId]| - 1] == e
  {
  }

  /** Storing into a full FIFO removes exactly its oldest entry, from both the FIFO and
      the index; otherwise nothing is removed. */
  lemma StoredEvictsOldest(cap: nat, st: StoreState, e: EventEntry)
    requires cap > 0 && Consistent(cap, st) && e.eventId !in st.eventIndex
    ensures var q, st' := Fifo(st.streams, e.streamId), Stored(cap, st, e);
      && (|q| == cap ==>
            && st'.streams[e.streamId] == q[1..] + [e]
            && q[0].eventId !in st'.eventIndex
            && st'.eventIndex.Keys == st.eventIndex.Keys - {q[0].eventId} + {e.eventId})
      && (|q| < cap ==>
            && st'.streams[e.streamId] == q + [e]
            && st'.eventIndex.Keys == st.eventIndex.Keys + {e.eventId})
  {
    var q := Fifo(st.streams, e.streamId);
    if |q| == cap {
      assert q[0].eventId in st.eventIndex;
    }
  }

  /** Storing into one stream leaves every other stream's FIFO and those streams' index
      entries as they were. */
  lemma StoredFrame(cap: nat, st: StoreState, e: EventEntry)
    requires cap > 0 && Consistent(cap, st) && e.eventId !in st.eventIndex
    ensures var st' := Stored(cap, st, e);
      && (forall s | s in st.streams && s != e.streamId :: s in st'.streams && st'.streams[s] == st.streams[s])
      && (forall s | s in st'.streams && s != e.streamId :: s in st.streams)
      && (forall id | id in st.eventIndex && st.eventIndex[id].streamId != e.streamId ::
            id in st'.eventIndex && st'.eventIndex[id] == st.eventIndex[id])
  {
    var q := Fifo(st.streams, e.streamId);
    if |q| == cap {
      assert q[0].streamId == e.streamId;
      assert st.eventIndex[q[0].eventId] == q[0];
    }
  }

  /** The FIFO of the stored event's stream after storing, in terms of the one before. */
  lemma StoredFifo(cap: nat, st: StoreState, e: EventEntry)
    requires cap > 0 && |Fifo(st.streams, e.streamId)| <= cap
    ensures var q := Fifo(st.streams, e.streamId);
      Stored(cap, st, e).streams[e.streamId] == if |q| == cap then q[1..] + [e] else q + [e]
  {
  }

  lemma StoredHeldAreIndexed(cap: nat, st: StoreState, e: EventEntry)
    requires cap > 0 && Consistent(cap, st) && e.eventId !in st.eventIndex
    ensures HeldAreIndexed(Stored(cap, st, e).streams, Stored(cap, st, e).eventIndex)
  {
    var s := e.streamId;
    var q := Fifo(st.streams, s);
    var st' := Stored(cap, st, e);
    var q' := st'.streams[s];
    StoredFifo(cap, st, e);
    forall t, i | t in st'.streams && 0 <= i < |st'.streams[t]|
      ensures st'.streams[t][i].streamId == t
      ensures st'.streams[t][i].eventId in st'.eventIndex
      ensures st'.eventIndex[st'.streams[t][i].eventId] == st'.streams[t][i]
    {
      var x := st'.streams[t][i];
      if x != e {
        var j := if t == s && |q| == cap then i + 1 else i;
        assert x == st.streams[t][j];
        assert st.eventIndex[x.eventId] == x;
        if |q| == cap {
          // x is not the evicted oldest entry: it sits behind it in the same FIFO,
          // or belongs to another stream
          assert st.eventIndex[q[0].eventId] == q[0];
          if t == s {
            assert j >= 1 && q[j].eventId != q[0].eventId;
          } else {
            assert x.streamId != q[0].streamId;
          }
        }
      }
    }
  }

  /** Appending an id not yet held keeps the ids of a FIFO distinct. */
  lemma BoundedAppendDistinct(q: seq<EventEntry>, cap: nat, e: EventEntry)
    requires 0 < cap && |q| <= cap && DistinctIds(q)
    requires forall i | 0 <= i < |q| :: q[i].eventId != e.eventId
    ensures DistinctIds(BoundedAppend(q, cap, e))
  {
    var q' := BoundedAppend(q, cap, e);
    var d := if |q| == cap then 1 else 0;
    forall i, j | 0 <= i < j < |q'| ensures q'[i].eventId != q'[j].eventId {
      assert q'[i] == q[i + d];
      if j < |q'| - 1 {
        assert q'[j] == q[j + d];
      }
    }
  }

  lemma StoredDistinctIds(cap: nat, st: StoreState, e: EventEntry)
    requires cap > 0 && Consistent(cap, st) && e.eventId !in st.eventIndex
    ensures forall t | t in Stored(cap, st, e).streams :: DistinctIds(Stored(cap, st, e).streams[t])
  {
    var q := Fifo(st.streams, e.streamId);
    forall i | 0 <= i < |q| ensures q[i].eventId != e.eventId {
      assert q[i].eventId in st.eventIndex;
    }
    BoundedAppendDistinct(q, cap, e);
  }

  lemma StoredIndexedAreHeld(cap: nat, st: StoreState, e: EventEntry)
    requires cap > 0 && Consistent(cap, st) && e.eventId !in st.eventIndex
    ensures IndexedAreHeld(Stored(cap, st, e).streams, Stored(cap, st, e).eventIndex)
  {
    var s := e.streamId;
    var q := Fifo(st.streams, s);
    var st' := Stored(cap, st, e);
    var q' := st'.streams[s];
    StoredFifo(cap, st, e);
    forall id | id in st'.eventIndex
      ensures st'.eventIndex[id].eventId == id
      ensures st'.eventIndex[id].streamId in st'.streams
      ensures st'.eventIndex[id] in st'.streams[st'.eventIndex[id].streamId]
    {
      if id == e.eventId {
        assert q'[|q'| - 1] == e;
      } else {
        var x := st.eventIndex[id];
        assert st'.eventIndex[id] == x;
        if x.streamId == s {
          var i :| 0 <= i < |q| && q[i] == x;
          if |q| == cap {
            assert i != 0;
            assert q'[i - 1] == x;
          } else {
            assert q'[i] == x;
          }
        }
      }
    }
  }

  /** Storing a fresh event keeps the two structures consistent. */
  lemma StoredPreservesConsistency(cap: nat, st: StoreState, e: EventEntry)
    requires cap > 0 && Consistent(cap, st) && e.eventId !in st.eventIndex
    ensures Consistent(cap, Stored(cap, st, e))
  {
    StoredHeldAreIndexed(cap, st, e);
    StoredDistinctIds(cap, st, e);
    StoredIndexedAreHeld(cap, st, e);
  }

  // ----- replay -----

  /** The position of the first entry of `q` with id `id`. */
  function Position(q: seq<EventEntry>, id: EventId): (k: Option<nat>)
    ensures k.Some? ==> k.value < |q| && q[k.value].eventId == id
    ensures k.Some? ==> forall j :: 0 <= j < k.value ==> q[j].eventId != id
    ensures k.None? ==> forall j :: 0 <= j < |q| ==> q[j].eventId != id
  {
    if q == [] then None
    else if q[0].eventId == id then Some(0)
    else match Position(q[1..], id)
      case None => None
      case Some(k) => Some(k + 1)
  }

  /** The entries of `q` that follow the entry with id `id`; none when `id` is not held. */
  function After(q: seq<EventEntry>, id: EventId): (r: seq<EventEntry>)
    ensures (forall j | 0 <= j < |q| :: q[j].eventId != id) ==> r == []
    ensures forall j | 0 <= j < |q| && q[j].eventId == id && (forall i | 0 <= i < j :: q[i].eventId != id) ::
              r == q[j + 1..]
  {
    match Position(q, id)
    case None => []
    case Some(k) => q[k + 1..]
  }

  function ToEventMessage(e: EventEntry): EventMessage {
    EventMessage(e.message, e.eventId)
  }

  /** The callback arguments for the entries of `q`, in order. */
  function Messages(q: seq<EventEntry>): (ms: seq<EventMessage>)
    ensures |ms| == |q|
    ensures forall i :: 0 <= i < |q| ==> ms[i] == ToEventMessage(q[i])
  {
    if q == [] then [] else Messages(q[..|q| - 1]) + [ToEventMessage(q[|q| - 1])]
  }

  /** In a FIFO whose ids are distinct, the events after the one at position `k` are the
      entries behind it. */
  lemma AfterIsSuffix(q: seq<EventEntry>, k: nat)
    requires k < |q| && DistinctIds(q)
    ensures After(q, q[k].eventId) == q[k + 1..]
  {
    var p := Position(q, q[k].eventId);
    assert p.Some?;
  }

  /** Replaying from the newest event of a stream sends nothing. */
  lemma ReplayNewestSendsNothing(cap: nat, st: StoreState, e: EventEntry)
    requires cap > 0 && Consistent(cap, st) && e.eventId !in st.eventIndex
    ensures After(Stored(cap, st, e).streams[e.streamId], e.eventId) == []
  {
    StoredDistinctIds(cap, st, e);
    var q' := Stored(cap, st, e).streams[e.streamId];
    AfterIsSuffix(q', |q'| - 1);
  }

  /** On one FIFO: after appending a new event, the events after a still-held one are
      those before the append followed by the new event. */
  lemma AfterBoundedAppend(q: seq<EventEntry>, cap: nat, e: EventEntry, k: nat)
    requires k < |q| <= cap && DistinctIds(q)
    requires forall i | 0 <= i < |q| :: q[i].eventId != e.eventId
    requires |q| == cap ==> k > 0
    ensures After(BoundedAppend(q, cap, e), q[k].eventId) == After(q, q[k].eventId) + [e]
  {
    var q' := BoundedAppend(q, cap, e);
    BoundedAppendDistinct(q, cap, e);
    AfterIsSuffix(q, k);
    var k' := if |q| == cap then k - 1 else k;
    assert q'[k'] == q[k];
    AfterIsSuffix(q', k');
    assert q'[k' + 1..] == q[k + 1..] + [e];
  }

  /** Replay is chronological across stores: once a new event is stored in the stream,
      replaying from an event still held there sends what it sent before, then the new
      event. */
  lemma ReplayAfterStore(cap: nat, st: StoreState, e: EventEntry, id: EventId)
    requires cap > 0 && Consistent(cap, st) && e.eventId !in st.eventIndex
    requires id in st.eventIndex && st.eventIndex[id].streamId == e.streamId
    requires id in Stored(cap, st, e).eventIndex  // not the oldest entry, evicted by the store
    ensures After(Stored(cap, st, e).streams[e.streamId], id) ==
            After(Fifo(st.streams, e.streamId), id) + [e]
  {
    var q := Fifo(st.streams, e.streamId);
    forall i | 0 <= i < |q| ensures q[i].eventId != e.eventId {
      assert q[i].eventId in st.eventIndex;
    }
    var k :| 0 <= k < |q| && q[k] == st.eventIndex[id];
    assert q[k].eventId == id;
    AfterBoundedAppend(q, cap, e, k);
  }

  /** The store of one process: the per-stream cap, the stream FIFOs and the index. */
  class InMemoryEventStore {
    const maxEventsPerStream: int
    var streams: Streams
    var eventIndex: Index

    ghost function State(): StoreState
      reads this
    {
      StoreState(streams, eventIndex)
    }

    ghost predicate Valid()
      reads this
    {
      Consistent(maxEventsPerStream, State())
    }

    constructor (maxEventsPerStream: int := DefaultMaxEventsPerStream)
      ensures Valid()
      ensures this.maxEventsPerStream == maxEventsPerStream
      ensures streams == map[] && eventIndex == map[]
    {
      this.maxEventsPerStream := maxEventsPerStream;
      streams := map[];
      eventIndex := map[];
    }

    /** `store_event`: stores `message` in stream `streamId` under the freshly generated
        id `eventId` and returns that id. */
    method StoreEvent(streamId: StreamId, message: JsonRpcMessage, eventId: EventId)
      returns (r: Result<EventId, StoreError>)
      requires Valid()
      requires eventId !in eventIndex
      modifies this
      ensures Valid()
      ensures maxEventsPerStream < 0 ==>
        r == Failure(NegativeMaxLen) && State() == old(State())
      ensures maxEventsPerStream == 0 ==>
        && r == Failure(OldestOfEmptyDeque)
        && streams == old(streams)[streamId := []] && eventIndex == old(eventIndex)
      ensures maxEventsPerStream > 0 ==>
        && r == Success(eventId)
        && State() == Stored(maxEventsPerStream, old(State()), EventEntry(eventId, streamId, message))
    {
      var entry := EventEntry(eventId, streamId, message);
      if streamId !in streams {
        if maxEventsPerStream < 0 {
          return Failure(NegativeMaxLen);
        }
        streams := streams[streamId := []];
      }
      var cap: nat := maxEventsPerStream;
      if |streams[streamId]| == cap {
        if streams[streamId] == [] {
          return Failure(OldestOfEmptyDeque);
        }
        var oldest := streams[streamId][0];
        eventIndex := eventIndex - {oldest.eventId};
      }
      streams := streams[streamId := BoundedAppend(streams[streamId], cap, entry)];
      eventIndex := eventIndex[eventId := entry];
      StoredPreservesConsistency(cap, old(State()), entry);
      return Success(eventId);
    }

    /** `replay_events_after`: when `lastEventId` is held, returns its stream and the
        messages of the events after it in that stream, oldest first, as they are handed
        to the callback; otherwise returns `None` and sends nothing. */
    method ReplayEventsAfter(lastEventId: EventId) returns (streamId: Option<StreamId>, sent: seq<EventMessage>)
      ensures lastEventId !in eventIndex ==> streamId == None && sent == []
      ensures lastEventId in eventIndex ==>
        && streamId == Some(eventIndex[lastEventId].streamId)
        && sent == Messages(After(Fifo(streams, eventIndex[lastEventId].streamId), lastEventId))
    {
      if lastEventId !in eventIndex {
        return None, [];
      }
      var lastEvent := eventIndex[lastEventId];
      var streamEvents := Fifo(streams, lastEvent.streamId);
      var foundLast := false;
      ghost var k := 0;
      sent := [];
      for i := 0 to |streamEvents|
        invariant !foundLast ==> sent == [] && forall j :: 0 <= j < i ==> streamEvents[j].eventId != lastEventId
        invariant foundLast ==> k < i && Position(streamEvents, lastEventId) == Some(k)
        invariant foundLast ==> sent == Messages(streamEvents[k + 1..i])
      {
        if foundLast {
          assert streamEvents[k + 1..i + 1][..i - k - 1] == streamEvents[k + 1..i];
          sent := sent + [ToEventMessage(streamEvents[i])];
        } else if streamEvents[i].eventId == lastEventId {
          foundLast := true;
          k := i;
        }
      }
      if !foundLast {
        assert Position(streamEvents, lastEventId) == None;
      }
      return Some(lastEvent.streamId), sent;
    }
  }
}
