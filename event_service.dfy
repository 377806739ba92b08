/** The event service: event creation, lookup, update and listing, and the
    registration of residents into an event's roster, over an in-memory
    store of events and participants. */
module EventService {
  import opened Common
  import opened JavaText
  import opened Entity
  import IdentityClient
  import opened EventQuery

  /** The service's failures. Each is thrown in the source as one of four
      Java exception classes, named per variant; variants that share a class
      differ only in their message. */
  datatype ServiceError =
    | EventNotFound        // DataNotFoundException
    | WargaNotFound        // DataNotFoundException: the identity service does not know the NIK
    | AlreadyRegistered    // ConflictException: (event, NIK) is already in the roster
    | IdentityConflict     // ConflictException re-raised from the identity lookup
    | IdentityUnavailable  // IllegalStateException raised by the identity lookup
    | QuotaFull            // IllegalStateException: the roster has reached the quota
    | InvalidTimeWindow    // IllegalArgumentException: end time before start time
    | InvalidPaging        // IllegalArgumentException from PageRequest.of

  /** The paging request: page index, page size, sort field and direction,
      free text; the strings may be null. */
  datatype Paging = Paging(
    pageIndex: int,
    perpage: int,
    sortField: Option<string>,
    sortDirection: Option<string>,
    q: Option<string>)

  /** One page of a listing, the number of matching events over all pages,
      and the sort actually applied. */
  datatype PageEnvelope = PageEnvelope(content: seq<Event>, total: nat, sort: SortMeta)

  /** An event holds exactly the six fields of a request. */
  predicate Carries(e: Event, req: EventRequest) {
    e.title == req.title && e.startTime == req.startTime && e.endTime == req.endTime
    && e.location == req.location && e.quota == req.quota && e.description == req.description
  }

  /** findByEvent: the participants of one event, in storage order. */
  function ParticipantsOf(ps: seq<Participant>, eventId: EventId): (r: seq<Participant>)
    ensures |r| <= |ps|
    ensures forall p :: p in r <==> p in ps && p.eventId == eventId
  {
    if ps == [] then []
    else (if ps[0].eventId == eventId then [ps[0]] else []) + ParticipantsOf(ps[1..], eventId)
  }

  /** existsByEventIdAndWargaNik. */
  predicate Registered(ps: seq<Participant>, eventId: EventId, wargaNik: string) {
    exists i :: 0 <= i < |ps| && ps[i].eventId == eventId && ps[i].wargaNik == wargaNik
  }

  /** The unique constraint uq_event_warga on (event_id, warga_nik). */
  ghost predicate UniquePairs(ps: seq<Participant>) {
    forall i, j :: 0 <= i < j < |ps| ==> ps[i].eventId != ps[j].eventId || ps[i].wargaNik != ps[j].wargaNik
  }

  /** Appending a participant extends its own event's roster by that
      participant and leaves every other roster as it was. */
  lemma {:induction false} RosterAfterAppend(ps: seq<Participant>, p: Participant, eventId: EventId)
    ensures ParticipantsOf(ps + [p], eventId)
      == ParticipantsOf(ps, eventId) + (if p.eventId == eventId then [p] else [])
  {
    if ps == [] {
      assert ps + [p] == [p];
    } else {
      var rest := ps[1..];
      var head := if ps[0].eventId == eventId then [ps[0]] else [];
      assert (ps + [p])[0] == ps[0];
      assert (ps + [p])[1..] == rest + [p];
      assert ParticipantsOf(ps + [p], eventId) == head + ParticipantsOf(rest + [p], eventId);
      assert ParticipantsOf(ps, eventId) == head + ParticipantsOf(rest, eventId);
      RosterAfterAppend(rest, p, eventId);
    }
  }

  /** Appending a pair that is not yet registered keeps the pairs unique. */
  lemma AppendKeepsUnique(ps: seq<Participant>, p: Participant)
    requires UniquePairs(ps) && !Registered(ps, p.eventId, p.wargaNik)
    ensures UniquePairs(ps + [p])
  {
    var qs := ps + [p];
    forall i, j | 0 <= i < j < |qs| ensures qs[i].eventId != qs[j].eventId || qs[i].wargaNik != qs[j].wargaNik {
      if j == |ps| {
        assert qs[i] == ps[i];
      } else {
        assert qs[i] == ps[i] && qs[j] == ps[j];
      }
    }
  }

  /** The events stored under the ids of order, in that order. */
  function InOrder(events: map<EventId, Event>, order: seq<EventId>): (r: seq<Event>)
    requires forall i :: 0 <= i < |order| ==> order[i] in events
    ensures |r| == |order|
    ensures forall i :: 0 <= i < |order| ==> r[i] == events[order[i]]
    ensures forall e :: e in r ==> e in events.Values
  {
    seq(|order|, i requires 0 <= i < |order| => events[order[i]])
  }

  /** The ids of the stored events a listing keeps. */
  ghost function MatchingIds(events: map<EventId, Event>, c: Criteria): set<EventId> {
    set id | id in events && Admits(c, events[id])
  }

  /** order lists every stored event exactly once: an ordering the storage
      engine may choose. */
  ghost predicate Enumerates(order: seq<EventId>, events: map<EventId, Event>) {
    (forall i :: 0 <= i < |order| ==> order[i] in events)
    && (forall i, j :: 0 <= i < j < |order| ==> order[i] != order[j])
    && (forall id :: id in events ==> id in order)
  }

  /** The ids listed in order that the criteria admit. */
  ghost function MatchingIn(events: map<EventId, Event>, order: seq<EventId>, c: Criteria): set<EventId>
    requires forall i :: 0 <= i < |order| ==> order[i] in events
  {
    set i | 0 <= i < |order| && Admits(c, events[order[i]]) :: order[i]
  }

  /** Filtering an ordering of distinct ids keeps one event per matching
      id, whatever the ordering. */
  lemma {:induction false} SelectCount(events: map<EventId, Event>, order: seq<EventId>, c: Criteria)
    requires forall i :: 0 <= i < |order| ==> order[i] in events
    requires forall i, j :: 0 <= i < j < |order| ==> order[i] != order[j]
    ensures |Select(InOrder(events, order), c)| == |MatchingIn(events, order, c)|
  {
    if order == [] {
      assert MatchingIn(events, order, c) == {};
    } else {
      var x, rest := order[0], order[1..];
      var es := InOrder(events, order);
      assert es[0] == events[x];
      assert es[1..] == InOrder(events, rest);
      assert |Select(es, c)| == (if Admits(c, events[x]) then 1 else 0) + |Select(InOrder(events, rest), c)|;
      SelectCount(events, rest, c);
      MatchingInFirst(events, order, c);
    }
  }

  /** The matching ids of a non-empty ordering: its first id, when
      admitted, beside the matching ids of the rest, which do not include
      it. */
  lemma MatchingInFirst(events: map<EventId, Event>, order: seq<EventId>, c: Criteria)
    requires |order| > 0
    requires forall i :: 0 <= i < |order| ==> order[i] in events
    requires forall i, j :: 0 <= i < j < |order| ==> order[i] != order[j]
    ensures order[0] !in MatchingIn(events, order[1..], c)
    ensures MatchingIn(events, order, c)
      == (if Admits(c, events[order[0]]) then {order[0]} else {}) + MatchingIn(events, order[1..], c)
  {
    var x, rest := order[0], order[1..];
    var head: set<EventId> := if Admits(c, events[x]) then {x} else {};
    forall id | id in MatchingIn(events, order, c) ensures id in head + MatchingIn(events, rest, c) {
      var i :| 0 <= i < |order| && Admits(c, events[order[i]]) && order[i] == id;
      if i > 0 { assert rest[i - 1] == id; }
    }
    forall id | id in MatchingIn(events, rest, c) ensures id in MatchingIn(events, order, c) && id != x {
      var i :| 0 <= i < |rest| && Admits(c, events[rest[i]]) && rest[i] == id;
      assert order[i + 1] == id;
    }
  }

  /** The total of a listing counts the matching stored events, whatever
      the order the storage engine lists them in. */
  lemma ListingTotal(events: map<EventId, Event>, order: seq<EventId>, c: Criteria)
    requires Enumerates(order, events)
    ensures |Select(InOrder(events, order), c)| == |MatchingIds(events, c)|
  {
    SelectCount(events, order, c);
    assert MatchingIn(events, order, c) == MatchingIds(events, c) by {
      forall id | id in MatchingIds(events, c) ensures id in MatchingIn(events, order, c) {
        var i :| 0 <= i < |order| && order[i] == id;
      }
    }
  }

  /** With no active filter every stored event matches. */
  lemma UnfilteredTotal(events: map<EventId, Event>, q: Option<string>)
    requires !TextActive(q)
    ensures |MatchingIds(events, Criteria(q, None, None))| == |events|
  {
    assert MatchingIds(events, Criteria(q, None, None)) == events.Keys;
  }

  /** The repositories behind the service: the event table keyed by id and
      the participant table in insertion order. nextId is the source of
      fresh identifiers. */
  class EventStore {
    var events: map<EventId, Event>
    var participants: seq<Participant>
    var nextId: nat

    /** Keys match the stored ids, ids are fresh below nextId, every
        participant refers to a stored event, participant ids are distinct
        and (event, NIK) pairs are unique. */
    ghost predicate Valid()
      reads this
    {
      (forall id :: id in events ==> events[id].id == id && id < nextId)
      && (forall i :: 0 <= i < |participants| ==> participants[i].eventId in events && participants[i].id < nextId)
      && (forall i, j :: 0 <= i < j < |participants| ==> participants[i].id != participants[j].id)
      && UniquePairs(participants)
    }

    constructor ()
      ensures Valid() && events == map[] && participants == []
    {
      events, participants, nextId := map[], [], 0;
    }

    /** createEvent: rejects an end time strictly before the start time
        (equal times are accepted); otherwise stores a new event with a
        fresh id holding the request's six fields. */
    method CreateEvent(req: EventRequest) returns (r: Result<Event, ServiceError>)
      requires Valid()
      modifies this
      ensures Valid() && participants == old(participants)
      ensures r.Failure? <==> req.endTime < req.startTime
      ensures r.Failure? ==> r.error == InvalidTimeWindow && events == old(events) && nextId == old(nextId)
      ensures r.Success? ==> r.value.id !in old(events) && Carries(r.value, req)
      ensures r.Success? ==> events == old(events)[r.value.id := r.value]
    {
      if req.endTime < req.startTime {
        return Failure(InvalidTimeWindow);
      }
      var e := Event(nextId, req.title, req.startTime, req.endTime, req.location, req.quota, req.description);
      events := events[e.id := e];
      nextId := nextId + 1;
      return Success(e);
    }

    /** getEventById. */
    method GetEventById(eventId: EventId) returns (r: Result<Event, ServiceError>)
      requires Valid()
      ensures r.Failure? <==> eventId !in events
      ensures r.Failure? ==> r.error == EventNotFound
      ensures r.Success? ==> r.value in events.Values && r.value.id == eventId
    {
      if eventId !in events {
        return Failure(EventNotFound);
      }
      return Success(events[eventId]);
    }

    /** updateEvent: an unknown id fails before the times are looked at; a
        known id with an end time before the start time fails; otherwise
        all six fields are replaced, the id stays and no other event
        changes. */
    method UpdateEvent(eventId: EventId, req: EventRequest) returns (r: Result<Event, ServiceError>)
      requires Valid()
      modifies this
      ensures Valid() && participants == old(participants) && nextId == old(nextId)
      ensures eventId !in old(events) ==> r == Failure(EventNotFound)
      ensures eventId in old(events) && req.endTime < req.startTime ==> r == Failure(InvalidTimeWindow)
      ensures r.Failure? ==> events == old(events)
      ensures r.Success? <==> eventId in old(events) && !(req.endTime < req.startTime)
      ensures r.Success? ==> r.value.id == eventId && Carries(r.value, req)
      ensures r.Success? ==> events == old(events)[eventId := r.value]
    {
      if eventId !in events {
        return Failure(EventNotFound);
      }
      var e := events[eventId];
      if req.endTime < req.startTime {
        return Failure(InvalidTimeWindow);
      }
      e := e.(title := req.title);
      e := e.(startTime := req.startTime);
      e := e.(endTime := req.endTime);
      e := e.(location := req.location);
      e := e.(quota := req.quota);
      e := e.(description := req.description);
      events := events[eventId := e];
      return Success(e);
    }

    /** registerParticipant: the checks run in a fixed order and the first
        that fails decides the error: unknown event (the identity service is
        then never asked), identity lookup (absent, conflict, unavailable),
        duplicate (event, NIK), full roster. Only when all pass is exactly
        one participant appended. lookup is what the identity service
        answers for this NIK. */
    method RegisterParticipant(eventId: EventId, wargaNik: string, lookup: IdentityClient.Upstream)
      returns (r: Result<Participant, ServiceError>, ghost consulted: bool)
      requires Valid()
      modifies this
      ensures Valid() && events == old(events)
      ensures consulted <==> eventId in events
      ensures eventId !in events ==> r == Failure(EventNotFound)
      ensures eventId in events ==>
        var found := IdentityClient.ExistsWargaByNik(lookup);
        if found == Success(false) then r == Failure(WargaNotFound)
        else if found == Failure(IdentityClient.Conflict) then r == Failure(IdentityConflict)
        else if found == Failure(IdentityClient.Unavailable) then r == Failure(IdentityUnavailable)
        else if Registered(old(participants), eventId, wargaNik) then r == Failure(AlreadyRegistered)
        else if |ParticipantsOf(old(participants), eventId)| >= events[eventId].quota then r == Failure(QuotaFull)
        else r.Success?
      ensures r.Failure? ==> participants == old(participants) && nextId == old(nextId)
      ensures r.Success? ==> r.value == Participant(old(nextId), eventId, wargaNik)
      ensures r.Success? ==> participants == old(participants) + [r.value]
      ensures r.Success? ==> |ParticipantsOf(participants, eventId)| == |ParticipantsOf(old(participants), eventId)| + 1 <= events[eventId].quota
      ensures r.Success? ==> forall other :: other != eventId ==> ParticipantsOf(participants, other) == ParticipantsOf(old(participants), other)
    {
      consulted := false;
      if eventId !in events {
        return Failure(EventNotFound), consulted;
      }
      var e := events[eventId];
      consulted := true;
      var wargaExists := IdentityClient.ExistsWargaByNik(lookup);
      match wargaExists {
        case Failure(err) =>
          return Failure(if err == IdentityClient.Conflict then IdentityConflict else IdentityUnavailable), consulted;
        case Success(false) => return Failure(WargaNotFound), consulted;
        case Success(true) =>
      }
      if Registered(participants, eventId, wargaNik) {
        return Failure(AlreadyRegistered), consulted;
      }
      var currentParticipants := |ParticipantsOf(participants, eventId)|;
      if currentParticipants >= e.quota {
        return Failure(QuotaFull), consulted;
      }
      var p := Participant(nextId, eventId, wargaNik);
      AppendKeepsUnique(participants, p);
      forall other ensures ParticipantsOf(participants + [p], other)
        == ParticipantsOf(participants, other) + (if other == eventId then [p] else []) {
        RosterAfterAppend(participants, p, other);
      }
      participants := participants + [p];
      nextId := nextId + 1;
      return Success(p), consulted;
    }

    /** listParticipants: not-found for an unknown event, otherwise exactly
        the participants registered for it. */
    method ListParticipants(eventId: EventId) returns (r: Result<seq<Participant>, ServiceError>)
      requires Valid()
      ensures r.Failure? <==> eventId !in events
      ensures r.Failure? ==> r.error == EventNotFound
      ensures r.Success? ==> forall p :: p in r.value <==> p in participants && p.eventId == eventId
      ensures r.Success? ==> r.value == ParticipantsOf(participants, eventId)
    {
      if eventId !in events {
        return Failure(EventNotFound);
      }
      return Success(ParticipantsOf(participants, eventId));
    }

    /** listEvents: normalise the sort, reject a negative page index or a
        page size below one, build the filters and return the requested page
        of the matching events in the storage engine's order, with the
        number of matching events over all pages. order is that ordering. */
    method ListEvents(paging: Paging, from: Option<int>, to: Option<int>, order: seq<EventId>)
      returns (r: Result<PageEnvelope, ServiceError>)
      requires Valid() && Enumerates(order, events)
      ensures r.Failure? <==> paging.pageIndex < 0 || paging.perpage < 1
      ensures r.Failure? ==> r.error == InvalidPaging
      ensures r.Success? ==> r.value.sort == EffectiveSort(paging.sortField, paging.sortDirection)
      ensures r.Success? ==> r.value.total == |MatchingIds(events, Criteria(paging.q, from, to))|
      ensures r.Success? ==> forall e :: e in r.value.content ==> e in events.Values && Admits(Criteria(paging.q, from, to), e)
      ensures r.Success? ==>
        r.value.content == PageOf(Select(InOrder(events, order), Criteria(paging.q, from, to)), paging.pageIndex, paging.perpage)
    {
      var sortField := NormalizeSortField(paging.sortField);
      var sortDir := NormalizeSortDir(paging.sortDirection);
      if paging.pageIndex < 0 || paging.perpage < 1 {
        return Failure(InvalidPaging);
      }
      var criteria := Criteria(paging.q, from, to);
      var filters := BuildFilters(criteria);
      var matching := Query(InOrder(events, order), filters);
      QueryIsSelect(InOrder(events, order), filters, criteria);
      ListingTotal(events, order, criteria);
      var content := PageOf(matching, paging.pageIndex, paging.perpage);
      var meta := SortMeta(sortField, ToLower(DirectionName(sortDir)));
      return Success(PageEnvelope(content, |matching|, meta));
    }
  }

  /** A resident the identity service knows. */
  function KnownResident(): IdentityClient.Upstream {
    IdentityClient.Delivered(Some(IdentityClient.IdentityEnvelope(None, None,
      Some(IdentityClient.WargaMinimal(None, None, None, None)))))
  }

  /** An event with quota 2 admits two residents and refuses a third, and
      the same resident cannot register twice. */
  method CapacityScenario() {
    var store := new EventStore();
    var created := store.CreateEvent(EventRequest("Kerja bakti", 10, 10, None, 2, None));
    assert created.Success?;
    var id := created.value.id;
    var first, _ := store.RegisterParticipant(id, "1111111111111111", KnownResident());
    assert first.Success?;
    var again, _ := store.RegisterParticipant(id, "1111111111111111", KnownResident());
    assert again == Failure(AlreadyRegistered);
    var second, _ := store.RegisterParticipant(id, "2222222222222222", KnownResident());
    assert second.Success?;
    var third, _ := store.RegisterParticipant(id, "3333333333333333", KnownResident());
    assert third == Failure(QuotaFull);
  }

  /** Lowering the quota below the roster is accepted and leaves the roster
      as it is; a NIK the identity service does not know is refused. */
  method QuotaBelowRosterScenario() {
    var store := new EventStore();
    var created := store.CreateEvent(EventRequest("Posyandu", 10, 12, None, 2, None));
    var id := created.value.id;
    var first, _ := store.RegisterParticipant(id, "1111111111111111", KnownResident());
    var second, _ := store.RegisterParticipant(id, "2222222222222222", KnownResident());
    assert first.Success? && second.Success?;
    var shrunk := store.UpdateEvent(id, EventRequest("Posyandu", 10, 12, None, 1, None));
    assert shrunk.Success? && shrunk.value.quota == 1;
    var roster := store.ListParticipants(id);
    assert roster.Success? && |roster.value| == 2;
    var unknown, _ := store.RegisterParticipant(id, "4444444444444444", IdentityClient.ErrorStatus(404));
    assert unknown == Failure(WargaNotFound);
  }
}
