/** The two persisted entities, as plain values. Identifiers are natural
    numbers handed out fresh by the store instead of random UUIDs, and
    LocalDateTime values are integers on one time line. */
module Entity {
  import opened Common

  type EventId = nat
  type ParticipantId = nat

  /** A row of table event. */
  datatype Event = Event(
    id: EventId,
    title: string,
    startTime: int,
    endTime: int,
    location: Option<string>,
    quota: int,
    description: Option<string>)

  /** A row of table event_participant: a resident (by NIK) registered for
      one event. The pair (eventId, wargaNik) is unique in the table. */
  datatype Participant = Participant(id: ParticipantId, eventId: EventId, wargaNik: string)

  /** The six writable fields of an event, as a create or update request
      carries them. */
  datatype EventRequest = EventRequest(
    title: string,
    startTime: int,
    endTime: int,
    location: Option<string>,
    quota: int,
    description: Option<string>)
}
