/** The records both models read: an event as the conference and person
    models see it, and the `EventPerson` join record. The Event model itself
    is not part of this model; only the attributes read here appear. */
module Events {
  import opened Collections

  /** One row of the `events` table. Days are whole day numbers (the
      `created_at.to_date` of the source); `accepted` stands for the Event
      model's `accepted` scope, which is not part of this model. */
  datatype Event = Event(
    id: int,
    conferenceId: int,
    state: string,
    language: string,
    timeSlots: int,
    createdDay: int,
    accepted: bool,
    averageFeedback: Option<real>,
    feedbackCount: nat)

  /** One row of the `event_people` table: a person's role on an event and
      the state of that role. */
  datatype EventPerson = EventPerson(event: Event, eventRole: string, roleState: string)

  /** `['speaker', 'moderator'].include? role`. */
  predicate IsPresenterRole(role: string)
  {
    role == "speaker" || role == "moderator"
  }
}
