# Event service: registration and query engine

A Dafny model of the business logic of the event service, a Spring service
that manages community events and the residents registered for them:

- **Event lifecycle** — creating, reading and updating events, with the
  time-window check (an end time strictly before the start time is
  refused; equal times are accepted).
- **Registration** — admitting a resident, identified by a 16-digit NIK,
  to an event's roster. The checks run in a fixed order: the event exists,
  the identity service knows the NIK, the (event, NIK) pair is new, the
  roster is below the quota.
- **Query builder** — the listing of events: sort-field whitelist,
  direction normalisation, the AND of optional filters (free text over
  title, location and description; an inclusive start-time window),
  paging, and the total over all pages.
- **Identity client** — the Feign error decoder (HTTP status to
  not-found, conflict or unavailable) and the facade that turns the one
  lookup call into "exists", "does not exist" or a propagated error. The
  facade is a function of that one call's outcome, so it holds no state.

Files:

- `common.dfy`: `Option` (a nullable reference) and `Result` (a value or
  the exception thrown).
- `java_text.dfy`: the `String` operations the query builder uses.
- `entity.dfy`: the `Event` and `Participant` rows and the event request.
- `identity_client.dfy`: the error decoder and the facade.
- `event_query.dfy`: sort normalisation, the filter list, the filter and
  paging functions.
- `event_service.dfy`: the `EventStore` class (the event table as a map,
  the participant table as a sequence, a fresh-id counter) with one method
  per service operation. It also holds the roster and listing lemmas and two
  registration scenarios.

The store's invariant `Valid()` keeps these facts:

- map keys equal event ids;
- ids are fresh;
- every participant refers to a stored event;
- participant ids are distinct;
- (event, NIK) pairs are unique.

There is deliberately no invariant "roster size is at most the quota".
`updateEvent` may lower the quota below the current roster;
`QuotaBelowRosterScenario` shows this. The proved property is local: registration
never admits when the roster has reached the quota, and after an admission
the roster is at most the quota.

Three facts of the code that are easy to misread:

- Equal start and end times are accepted. The code rejects only `endTime.isBefore(startTime)`.
- The capacity failure and the identity-unavailable failure are the same Java class, `IllegalStateException`. So are a duplicate registration and an upstream conflict (`ConflictException`), and an unknown event and an unknown NIK (`DataNotFoundException`). The model keeps them as distinct `ServiceError` variants. A comment on each variant gives its Java class.
- A successful lookup with no envelope or no `data` reads as "does not exist" (`false`), not as unavailable.

## Model

| member | source | states |
|---|---|---|
| JavaText.Trim | src/main/java/com/yolifay/eventservice/service/EventService.java:90 | `trim` returns an infix of the query. Everything stripped around it is a character up to U+0020, and the result neither starts nor ends with one. |
| JavaText.ToLower | src/main/java/com/yolifay/eventservice/service/EventService.java:90 | `toLowerCase` keeps the length and turns each upper-case letter into its lower-case letter, 'A' into 'a' and so on. Every other character stays as it is. |
| JavaText.EqualsIgnoreCaseIsLowerEquality | src/main/java/com/yolifay/eventservice/service/EventService.java:219 | `equalsIgnoreCase` holds exactly when the two lower-cased strings are equal. |
| IdentityClient.DecodeError | src/main/java/com/yolifay/eventservice/client/FeignConfig.java:12-17 | 404 is not-found and 409 is conflict, in both directions. Every other status is an `IllegalStateException` carrying that status, marked "unavailable" exactly for 502, 503 and 504. The decoder is total. |
| IdentityClient.ExistsWargaByNik | src/main/java/com/yolifay/eventservice/client/IdentityClientFacade.java:15-30 | Composed with the Feign call and the decoder, true iff a response with non-null `data` arrived. False iff the envelope or `data` is null or the status is 404, so no other error status gives false. Conflict iff 409. Unavailable iff a transport failure or any other status. |
| EventQuery.NormalizeSortField | src/main/java/com/yolifay/eventservice/service/EventService.java:208-217 | The result is always whitelisted. A whitelisted name comes back unchanged. Null, blank and every other name, case variants included, give `startTime`. |
| EventQuery.NormalizeSortDir | src/main/java/com/yolifay/eventservice/service/EventService.java:218-220 | Ascending iff the direction is non-null and lower-cases to `asc`; descending otherwise. |
| EventQuery.EffectiveSort | src/main/java/com/yolifay/eventservice/service/EventService.java:80-118 | The reported sort field is the normalised one. The direction is `asc` or `desc`, and `asc` exactly when the request asked for `asc` in any case. |
| EventQuery.BuildFilters | src/main/java/com/yolifay/eventservice/service/EventService.java:87-110 | The predicate list is built by successive adds: one per active filter, and none when nothing is active. Their AND selects exactly the events `Admits` accepts: (blank or null q, or the trimmed lower-cased q inside the lower-cased title, location or description) and (no from, or start at least from) and (no to, or start at most to). |
| EventQuery.AddFilter | src/main/java/com/yolifay/eventservice/service/EventService.java:108-109 | Adding a predicate to the list conjoins it with the predicates already there. |
| EventQuery.Select | src/main/java/com/yolifay/eventservice/service/EventService.java:113 | The filtered listing holds exactly the admitted events of the input and is no longer than it. |
| EventQuery.SelectAppend | src/main/java/com/yolifay/eventservice/service/EventService.java:113 | Filtering a concatenation is the concatenation of the filtered parts. So the listing keeps the storage order and keeps each admitted event once per occurrence. |
| EventQuery.Query | src/main/java/com/yolifay/eventservice/service/EventService.java:113 | `findAll(spec)` keeps only rows on which every predicate of the built specification holds. |
| EventQuery.QueryIsSelect | src/main/java/com/yolifay/eventservice/service/EventService.java:87-113 | Running a predicate list that selects exactly the admitted events gives the filtered listing `Select`, element for element and in order. |
| EventQuery.PageOf | src/main/java/com/yolifay/eventservice/service/EventService.java:83 | A page holds the elements from `index * size` on, at most `size` of them. A page past the end is empty. |
| EventQuery.PagesCover | src/main/java/com/yolifay/eventservice/service/EventService.java:83 | Element k of the filtered listing is at offset k % size of page k / size, so paging loses no event. |
| EventQuery.ControlCharacterQueryFiltersNothing | src/main/java/com/yolifay/eventservice/service/EventService.java:89-90 | A q made of U+0001 is not blank, so the text filter is active. It trims to the empty pattern and admits every event the other filters admit. |
| EventService.ParticipantsOf | src/main/java/com/yolifay/eventservice/service/EventService.java:185 | `findByEvent` returns exactly the stored participants of that event. |
| EventService.RosterAfterAppend | src/main/java/com/yolifay/eventservice/service/EventService.java:163-172 | Appending a participant adds it to the end of its own event's roster and leaves every other roster unchanged. |
| EventService.AppendKeepsUnique | src/main/java/com/yolifay/eventservice/entity/EventParticipant.java:12 | Appending an (event, NIK) pair that is not yet registered keeps the pairs unique. |
| EventService.SelectCount | src/main/java/com/yolifay/eventservice/service/EventService.java:113-119 | Filtering any ordering of distinct stored ids gives one event per matching id. |
| EventService.ListingTotal | src/main/java/com/yolifay/eventservice/service/EventService.java:119 | The listing total is the number of stored events the filters admit, in whatever order the storage lists them. |
| EventService.UnfilteredTotal | src/main/java/com/yolifay/eventservice/service/EventService.java:108 | With no active filter, every stored event matches, so the total is the number of events. |
| EventService.EventStore.CreateEvent | src/main/java/com/yolifay/eventservice/service/EventService.java:44-62 | Fails with invalid-argument iff the end time is strictly before the start time, and a failure changes nothing. Otherwise it stores one new event under a fresh id with the request's six fields. Other events and the participants are untouched, and the invariant is kept. |
| EventService.EventStore.GetEventById | src/main/java/com/yolifay/eventservice/service/EventService.java:65-73 | Not-found iff the id is absent; otherwise returns the stored event with that id. |
| EventService.EventStore.UpdateEvent | src/main/java/com/yolifay/eventservice/service/EventService.java:123-144 | An absent id gives not-found, whatever the times. A present id with the end time before the start time gives invalid-argument. A failure changes nothing. On success all six fields are replaced, the id stays, and no other event or participant changes. |
| EventService.EventStore.RegisterParticipant | src/main/java/com/yolifay/eventservice/service/EventService.java:148-176 | Checks in order: missing event gives not-found and the identity service is not consulted. The lookup's not-found, conflict or unavailable comes next, even if the pair is a duplicate. Then an existing (event, NIK) pair gives conflict, and a roster at or above the quota gives quota-full. A failure changes nothing. A success appends exactly one participant with a fresh id, that event and that NIK. That roster grows by one and stays at most the quota, other rosters are unchanged, and pairs stay unique. |
| EventService.EventStore.ListParticipants | src/main/java/com/yolifay/eventservice/service/EventService.java:179-192 | Not-found iff the event is absent; otherwise exactly the participants of that event. |
| EventService.EventStore.ListEvents | src/main/java/com/yolifay/eventservice/service/EventService.java:76-120 | Invalid-argument iff the page index is negative or the page size is below one. Otherwise it returns the normalised sort metadata and the requested page of the filtered listing. Every event on the page is stored and admitted. The total counts all admitted stored events, not just the page. |

## Left out

- Timestamps: `createdAt` and `updatedAt` are set by Hibernate from the clock. They are not part of the model.
- Identifiers: random UUIDs are replaced by a counter, `nextId`, that hands out fresh numbers. `LocalDateTime` values are integers.
- Response records: `mapEventResponse` and `mapParticipantResponse` copy fields one to one and turn ids into strings. The model returns the stored records themselves.
- Ordering: sorting and paging run in Spring Data. The storage order is an input of `ListEvents`, any enumeration of the stored ids. The model does not check that order against the normalised sort field and direction.
- LIKE wildcards: a `%` or `_` inside q is a wildcard in SQL; the model reads q as a plain substring.
- Unicode: whitespace, `trim`, case mapping and `equalsIgnoreCase` are modelled for ASCII letters only. For example, the model does not capture that `equalsIgnoreCase` accepts U+017F (long s) for `s`.
- The request types `EventCreateRequest`, `BasePaging` and `PageEnvelope` are not part of this model:
  - a create request is taken to carry the same six fields that `createEvent` reads;
  - page index and page size are taken as `BasePaging` delivers them;
  - the envelope holds the page, the total and the sort metadata.
- Validation annotations: `@NotBlank`, `@Min(1)` on quota and the 16-digit NIK pattern run before the service and are not preconditions here. The service itself does not rely on them.
- In-place entity update: `updateEvent` sets six fields on the managed entity. The model sets them one by one on a value and writes it back under the same key.
- Concurrency: `@Transactional`, database isolation and the check-then-act race on the quota are not modelled. The model is sequential.
- Integer width: quota is a 32-bit `Integer` and the count a `long`; the model uses unbounded integers. Only a comparison is made, so no wrap-around can occur.
- Network: the identity call's timeout and retry behaviour are not modelled. A failed or timed-out call is the `TransportFailure` outcome.
- Logging: not modelled.
