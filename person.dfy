/** The Person model: the names it shows, the locale its mails use, the
    queries over its participations (`event_people`), the role state of its
    speaker participations in a conference, the mean feedback on the events
    it presents, and the availability clean-up of the slider form. The
    person's associations are in-memory sequences; a conference is known by
    its id. */
module People {
  import opened Collections
  import opened Text
  import opened Events
  import opened Conferences

  // ---------------------------------------------------------------------
  // Names

  /** `full_name`. Ruby's `or` and `and` bind equally tightly and group to
      the left, so the condition reads
      `(first_name.blank? or last_name.blank?) and not public_name.blank?`.
      The result is blank exactly when the first, last and public names are
      all blank. */
  function FullName(first: Option<string>, last: Option<string>, public: Option<string>): (r: string)
    ensures Blank(Some(r)) <==> Blank(first) && Blank(last) && Blank(public)
  {
    SpacedPairBlank(first, last);
    if (Blank(first) || Blank(last)) && !Blank(public) then public.value
    else Interpolate(first) + " " + Interpolate(last)
  }

  /** The grouping matters: with a blank first name, a present last name and
      a blank public name, `full_name` gives `" " + last`, whereas the
      reading `first_name.blank? or (last_name.blank? and ...)` would
      return the blank public name. */
  lemma FullNameGroupsLeft()
    ensures var first, last, public := Some(""), Some("Doe"), Some("");
      FullName(first, last, public) == " Doe" &&
      (Blank(first) || (Blank(last) && !Blank(public)))
  {
  }

  /** `full_public_name`: the public name unless it is blank, then
      `full_name`; blank exactly when every name is blank. */
  function FullPublicName(first: Option<string>, last: Option<string>, public: Option<string>): (r: string)
    ensures Blank(Some(r)) <==> Blank(first) && Blank(last) && Blank(public)
  {
    if Blank(public) then FullName(first, last, public) else public.value
  }

  /** A non-blank public name is shown as it is; with a blank one the
      fallback `full_name` always takes its `"first last"` branch. */
  lemma FullPublicNameChoice(first: Option<string>, last: Option<string>, public: Option<string>)
    ensures !Blank(public) ==> FullPublicName(first, last, public) == public.value
    ensures Blank(public) ==> FullPublicName(first, last, public) == Interpolate(first) + " " + Interpolate(last)
  {
  }

  // ---------------------------------------------------------------------
  // Mailing locale

  /** `locale_for_mailing`: the person's and the conference's language codes
      are downcased (symbols are modelled as their names); the result is
      `:en` when the person's codes include `en`, are empty, or share none
      with the conference's, and otherwise the first element of
      `own & conference`. */
  function LocaleForMailing(ownCodes: seq<string>, conferenceCodes: seq<string>): (r: string)
    ensures r == "en" || (r in LanguageCodes(ownCodes) && r in LanguageCodes(conferenceCodes))
  {
    var own := LanguageCodes(ownCodes);
    var common := Intersect(own, LanguageCodes(conferenceCodes));
    if "en" in own || |own| == 0 || |common| == 0 then "en" else common[0]
  }

  /** The fallback to `:en`: when the person lists `en`, lists nothing, or
      shares no code with the conference. */
  lemma LocaleFallsBackToEnglish(ownCodes: seq<string>, conferenceCodes: seq<string>)
    requires var own := LanguageCodes(ownCodes);
      "en" in own || forall i :: 0 <= i < |own| ==> own[i] !in LanguageCodes(conferenceCodes)
    ensures LocaleForMailing(ownCodes, conferenceCodes) == "en"
  {
    var own := LanguageCodes(ownCodes);
    var conf := LanguageCodes(conferenceCodes);
    if "en" !in own && |Intersect(own, conf)| > 0 {
      var x := Intersect(own, conf)[0];
      assert x in Filter(own, y => y in conf);
    }
  }

  /** Otherwise the locale is the first of the person's downcased codes, in
      the person's order, that the conference also offers. */
  lemma LocaleIsFirstSharedCode(ownCodes: seq<string>, conferenceCodes: seq<string>, k: nat)
    requires var own := LanguageCodes(ownCodes);
      "en" !in own && k < |own| && own[k] in LanguageCodes(conferenceCodes) &&
      forall j :: 0 <= j < k ==> own[j] !in LanguageCodes(conferenceCodes)
    ensures LocaleForMailing(ownCodes, conferenceCodes) == LanguageCodes(ownCodes)[k]
  {
    IntersectFirst(LanguageCodes(ownCodes), LanguageCodes(conferenceCodes), k);
  }

  // ---------------------------------------------------------------------
  // Participations

  function InConference(conferenceId: int): EventPerson -> bool
  {
    (ep: EventPerson) => ep.event.conferenceId == conferenceId
  }

  function OutsideConference(conferenceId: int): EventPerson -> bool
  {
    (ep: EventPerson) => ep.event.conferenceId != conferenceId
  }

  function Presenting(): EventPerson -> bool
  {
    (ep: EventPerson) => IsPresenterRole(ep.eventRole)
  }

  /** The participation as speaker or moderator of an event in state
      confirmed or unconfirmed. */
  function ActivelyPresenting(): EventPerson -> bool
  {
    (ep: EventPerson) => IsPresenterRole(ep.eventRole) && (ep.event.state == "confirmed" || ep.event.state == "unconfirmed")
  }

  /** The events of a list of participations, in the same order. */
  function EventsOf(eps: seq<EventPerson>): (evs: seq<Event>)
    ensures |evs| == |eps| && forall i :: 0 <= i < |eps| ==> evs[i] == eps[i].event
    ensures forall e :: e in evs <==> exists ep :: ep in eps && ep.event == e
  {
    var evs := seq(|eps|, i requires 0 <= i < |eps| => eps[i].event);
    assert forall ep :: ep in eps ==> ep.event in evs by {
      forall ep | ep in eps ensures ep.event in evs {
        var i :| 0 <= i < |eps| && eps[i] == ep;
        assert evs[i] == ep.event;
      }
    }
    evs
  }

  /** `involved_in?`: the number of joined (person, event, conference) rows
      for the conference is positive, that is, some participation's event
      belongs to it. */
  function InvolvedIn(eps: seq<EventPerson>, conferenceId: int): (b: bool)
    ensures b <==> exists i :: 0 <= i < |eps| && eps[i].event.conferenceId == conferenceId
  {
    CountZeroIff(eps, InConference(conferenceId));
    Count(eps, InConference(conferenceId)) > 0
  }

  /** `active_in_any_conference?`: some participation as speaker or
      moderator is on an event in state confirmed or unconfirmed. */
  function ActiveInAnyConference(eps: seq<EventPerson>): (b: bool)
    ensures b <==> exists i :: (0 <= i < |eps| && IsPresenterRole(eps[i].eventRole) &&
      (eps[i].event.state == "confirmed" || eps[i].event.state == "unconfirmed"))
  {
    CountZeroIff(eps, ActivelyPresenting());
    Count(eps, ActivelyPresenting()) > 0
  }

  /** `events_in(conference)`: the person's distinct events (the
      association is `uniq`) that belong to the conference. */
  function EventsIn(eps: seq<EventPerson>, conferenceId: int): (r: seq<Event>)
    ensures forall e :: e in r <==> e.conferenceId == conferenceId && exists ep :: ep in eps && ep.event == e
    ensures forall i, j :: 0 <= i < j < |r| ==> r[i] != r[j]
  {
    Uniq(EventsOf(Filter(eps, InConference(conferenceId))))
  }

  /** `speaker_role_state(conference)`: the participations in the
      conference, then among those the ones as speaker or moderator, each
      `select` keeping the order; together they are one `select` with both
      conditions, so the participations keep their order in `event_people`
      (FilterAppend). */
  function SpeakerRoleState(eps: seq<EventPerson>, conferenceId: int): (r: seq<EventPerson>)
    ensures forall ep :: ep in r <==> ep in eps && ep.event.conferenceId == conferenceId && IsPresenterRole(ep.eventRole)
    ensures r == Filter(eps, SpeakerIn(conferenceId))
  {
    FilterNested(eps, InConference(conferenceId), Presenting(), SpeakerIn(conferenceId));
    Filter(Filter(eps, InConference(conferenceId)), Presenting())
  }

  /** `events_as_presenter_in(conference)`: the person's distinct events in
      the conference on which they are speaker or moderator. */
  function EventsAsPresenterIn(eps: seq<EventPerson>, conferenceId: int): (r: seq<Event>)
    ensures forall e :: e in r <==> (e.conferenceId == conferenceId &&
      exists ep :: ep in eps && IsPresenterRole(ep.eventRole) && ep.event == e)
    ensures forall i, j :: 0 <= i < j < |r| ==> r[i] != r[j]
  {
    Uniq(EventsOf(SpeakerRoleState(eps, conferenceId)))
  }

  /** `events_as_presenter_not_in(conference)`: the person's distinct
      events of other conferences on which they are speaker or moderator. */
  function EventsAsPresenterNotIn(eps: seq<EventPerson>, conferenceId: int): (r: seq<Event>)
    ensures forall e :: e in r <==> (e.conferenceId != conferenceId &&
      exists ep :: ep in eps && IsPresenterRole(ep.eventRole) && ep.event == e)
    ensures forall i, j :: 0 <= i < j < |r| ==> r[i] != r[j]
  {
    Uniq(EventsOf(Filter(Filter(eps, Presenting()), OutsideConference(conferenceId))))
  }

  /** The two presenter queries split the events the person presents: each
      such event is in exactly one of them. Both lie within the events of
      their conference side. */
  lemma PresenterEventsSplit(eps: seq<EventPerson>, conferenceId: int, e: Event)
    ensures (e in EventsAsPresenterIn(eps, conferenceId) || e in EventsAsPresenterNotIn(eps, conferenceId)) <==>
      exists ep :: ep in eps && IsPresenterRole(ep.eventRole) && ep.event == e
    ensures !(e in EventsAsPresenterIn(eps, conferenceId) && e in EventsAsPresenterNotIn(eps, conferenceId))
    ensures e in EventsAsPresenterIn(eps, conferenceId) ==> e in EventsIn(eps, conferenceId)
  {
  }

  // ---------------------------------------------------------------------
  // Role state

  function RoleStates(eps: seq<EventPerson>): seq<string>
  {
    seq(|eps|, i requires 0 <= i < |eps| => eps[i].roleState)
  }

  /** The role states of `eps` are the states some participation has. */
  lemma RoleStatesMembers(eps: seq<EventPerson>)
    ensures forall s :: s in RoleStates(eps) <==> exists ep :: ep in eps && ep.roleState == s
  {
    forall ep | ep in eps ensures ep.roleState in RoleStates(eps) {
      var i :| 0 <= i < |eps| && eps[i] == ep;
      assert RoleStates(eps)[i] == ep.roleState;
    }
  }

  /** The distinct role states of the person's speaker participations in
      the conference, each at its first occurrence: a state comes before
      another exactly when its first speaker participation does. */
  function DistinctRoleStates(eps: seq<EventPerson>, conferenceId: int): (r: seq<string>)
    ensures forall s :: s in r <==> exists ep :: ep in SpeakerRoleState(eps, conferenceId) && ep.roleState == s
    ensures forall i, j :: 0 <= i < j < |r| ==> r[i] != r[j]
    ensures forall s :: s in r ==> s in RoleStates(SpeakerRoleState(eps, conferenceId))
    ensures forall i, j :: 0 <= i < j < |r| ==>
      IndexOf(RoleStates(SpeakerRoleState(eps, conferenceId)), r[i]) < IndexOf(RoleStates(SpeakerRoleState(eps, conferenceId)), r[j])
    ensures |SpeakerRoleState(eps, conferenceId)| > 0 ==> |r| > 0 && r[0] == SpeakerRoleState(eps, conferenceId)[0].roleState
  {
    RoleStatesMembers(SpeakerRoleState(eps, conferenceId));
    UniqInOrder(RoleStates(SpeakerRoleState(eps, conferenceId)));
    Uniq(RoleStates(SpeakerRoleState(eps, conferenceId)))
  }

  /** `role_state(conference)`: those distinct states joined with `", "`.
      It is empty without speaker participations in the conference, and
      otherwise starts with the state of the first of them; each distinct
      state stands at its offset, with one `", "` between each two and
      nothing after the last. */
  function RoleState(eps: seq<EventPerson>, conferenceId: int): (r: string)
    ensures (forall i :: 0 <= i < |eps| ==> !(eps[i].event.conferenceId == conferenceId && IsPresenterRole(eps[i].eventRole))) ==>
      r == ""
    ensures |SpeakerRoleState(eps, conferenceId)| > 0 ==> var first := SpeakerRoleState(eps, conferenceId)[0].roleState;
      |first| <= |r| && r[..|first|] == first
    ensures var d := DistinctRoleStates(eps, conferenceId);
      (forall i :: 0 <= i < |d| ==> PartAt(d, ", ", r, i)) &&
      (forall i :: 0 <= i < |d| - 1 ==> SeparatorAt(d, ", ", r, i)) &&
      (|d| > 0 ==> |r| == Offset(d, ", ", |d| - 1) + |d[|d| - 1]|)
  {
    JoinLayout(DistinctRoleStates(eps, conferenceId), ", ");
    Join(DistinctRoleStates(eps, conferenceId), ", ")
  }

  /** When every speaker participation in the conference has the same
      state, and there is one, the role state is that state alone. */
  lemma RoleStateOfUniformStates(eps: seq<EventPerson>, conferenceId: int, s: string)
    requires exists i :: 0 <= i < |eps| && eps[i].event.conferenceId == conferenceId && IsPresenterRole(eps[i].eventRole)
    requires forall i :: 0 <= i < |eps| && eps[i].event.conferenceId == conferenceId && IsPresenterRole(eps[i].eventRole) ==>
      eps[i].roleState == s
    ensures RoleState(eps, conferenceId) == s
  {
    var sel := SpeakerRoleState(eps, conferenceId);
    var i :| 0 <= i < |eps| && eps[i].event.conferenceId == conferenceId && IsPresenterRole(eps[i].eventRole);
    assert eps[i] in sel;
    assert |RoleStates(sel)| > 0;
    forall j | 0 <= j < |RoleStates(sel)| ensures RoleStates(sel)[j] == s {
      assert sel[j] in sel;
    }
    UniqOfConstant(RoleStates(sel), s);
  }

  /** One participation after `set_role_state`: speaker participations of
      the conference get the new state, all others are left as they are. */
  function WithState(ep: EventPerson, conferenceId: int, state: string): EventPerson
  {
    if ep.event.conferenceId == conferenceId && IsPresenterRole(ep.eventRole) then ep.(roleState := state) else ep
  }

  /** The participations after `set_role_state(conference, state)`. */
  function WithRoleState(eps: seq<EventPerson>, conferenceId: int, state: string): (r: seq<EventPerson>)
    ensures |r| == |eps|
    ensures forall i :: 0 <= i < |r| ==> r[i].event == eps[i].event && r[i].eventRole == eps[i].eventRole
    ensures forall i :: 0 <= i < |r| ==>
      r[i].roleState == if SpeakerIn(conferenceId)(eps[i]) then state else eps[i].roleState
  {
    seq(|eps|, i requires 0 <= i < |eps| => WithState(eps[i], conferenceId, state))
  }

  /** After `set_role_state(conference, s)`, `role_state(conference)` is
      `s` whenever the person has a speaker participation there. */
  lemma RoleStateAfterSet(eps: seq<EventPerson>, conferenceId: int, state: string)
    requires exists i :: 0 <= i < |eps| && eps[i].event.conferenceId == conferenceId && IsPresenterRole(eps[i].eventRole)
    ensures RoleState(WithRoleState(eps, conferenceId, state), conferenceId) == state
  {
    var after := WithRoleState(eps, conferenceId, state);
    var i :| 0 <= i < |eps| && eps[i].event.conferenceId == conferenceId && IsPresenterRole(eps[i].eventRole);
    assert after[i].event == eps[i].event && after[i].eventRole == eps[i].eventRole;
    RoleStateOfUniformStates(after, conferenceId, state);
  }

  /** Setting the same state twice is setting it once, and the set of
      participations `speaker_role_state` selects stays the same size. */
  lemma SetRoleStateIdempotent(eps: seq<EventPerson>, conferenceId: int, state: string)
    ensures WithRoleState(WithRoleState(eps, conferenceId, state), conferenceId, state) == WithRoleState(eps, conferenceId, state)
    ensures |SpeakerRoleState(WithRoleState(eps, conferenceId, state), conferenceId)| == |SpeakerRoleState(eps, conferenceId)|
  {
    var after := WithRoleState(eps, conferenceId, state);
    SelectionCount(eps, conferenceId);
    SelectionCount(after, conferenceId);
    CountMapped(eps, SpeakerIn(conferenceId), conferenceId, state);
    CountCongruent(eps, SpeakerIn(conferenceId), (ep: EventPerson) => SpeakerIn(conferenceId)(WithState(ep, conferenceId, state)));
  }

  /** A speaker participation in the conference: the two conditions of
      `speaker_role_state` together. */
  function SpeakerIn(conferenceId: int): EventPerson -> bool
  {
    (ep: EventPerson) => ep.event.conferenceId == conferenceId && IsPresenterRole(ep.eventRole)
  }

  /** `speaker_role_state` selects as many participations as satisfy both
      of its conditions together. */
  lemma SelectionCount(eps: seq<EventPerson>, conferenceId: int)
    ensures |SpeakerRoleState(eps, conferenceId)| == Count(eps, SpeakerIn(conferenceId))
  {
  }

  /** Counting over the updated participations is counting the updated
      versions of the originals. */
  lemma {:induction false} CountMapped(eps: seq<EventPerson>, p: EventPerson -> bool, conferenceId: int, state: string)
    ensures Count(WithRoleState(eps, conferenceId, state), p) ==
      Count(eps, (ep: EventPerson) => p(WithState(ep, conferenceId, state)))
  {
    if |eps| > 0 {
      var init := eps[..|eps| - 1];
      CountMapped(init, p, conferenceId, state);
      assert WithRoleState(eps, conferenceId, state)[..|eps| - 1] == WithRoleState(init, conferenceId, state);
    }
  }

  // ---------------------------------------------------------------------
  // Feedback

  /** The events of the participations as speaker or moderator, in order. */
  function PresenterEvents(eps: seq<EventPerson>): (r: seq<Event>)
    ensures |r| == Count(eps, Presenting())
    ensures forall e :: e in r <==> exists ep :: ep in eps && IsPresenterRole(ep.eventRole) && ep.event == e
  {
    EventsOf(Filter(eps, Presenting()))
  }

  /** What one event adds to the sum: `average_feedback * event_feedbacks_count`
      when it has an average. */
  function Contribution(e: Event): real
  {
    if e.averageFeedback.Some? then e.averageFeedback.value * e.feedbackCount as real else 0.0
  }

  /** What one event adds to the count: `event_feedbacks_count` when it has
      an average. */
  function Weight(e: Event): nat
  {
    if e.averageFeedback.Some? then e.feedbackCount else 0
  }

  /** The weighted feedback sum over `evs`. */
  function FeedbackSum(evs: seq<Event>): real
  {
    if |evs| == 0 then 0.0 else FeedbackSum(evs[..|evs| - 1]) + Contribution(evs[|evs| - 1])
  }

  /** The total weight over `evs`. */
  function FeedbackWeight(evs: seq<Event>): nat
  {
    if |evs| == 0 then 0 else FeedbackWeight(evs[..|evs| - 1]) + Weight(evs[|evs| - 1])
  }

  /** The count-weighted mean of the averages, nil when the total weight is
      zero. */
  function WeightedMean(evs: seq<Event>): (m: Option<real>)
    ensures m.None? <==> FeedbackWeight(evs) == 0
    ensures m.Some? ==> m.value * FeedbackWeight(evs) as real == FeedbackSum(evs)
  {
    if FeedbackWeight(evs) == 0 then None else Some(FeedbackSum(evs) / FeedbackWeight(evs) as real)
  }

  /** The mean is nil exactly when every event with an average has no
      feedback. */
  lemma {:induction false} WeightedMeanNil(evs: seq<Event>)
    ensures WeightedMean(evs).None? <==>
      forall i :: 0 <= i < |evs| && evs[i].averageFeedback.Some? ==> evs[i].feedbackCount == 0
  {
    if |evs| > 0 {
      var init := evs[..|evs| - 1];
      WeightedMeanNil(init);
      assert forall i :: 0 <= i < |init| ==> init[i] == evs[i];
    }
  }

  /** An event without an average contributes nothing. */
  lemma NilAverageIgnored(evs: seq<Event>, e: Event)
    requires e.averageFeedback.None?
    ensures WeightedMean(evs + [e]) == WeightedMean(evs)
  {
    assert (evs + [e])[..|evs|] == evs;
  }

  /** A single event with feedback has its own average as the mean. */
  lemma SingleEventMean(e: Event)
    requires e.averageFeedback.Some? && e.feedbackCount > 0
    ensures WeightedMean([e]) == e.averageFeedback
  {
    assert [e][..0] == [];
    var c := e.feedbackCount as real;
    var a := e.averageFeedback.value;
    assert FeedbackSum([e]) == a * c;
    assert FeedbackWeight([e]) as real == c;
    assert (a * c) / c == a;
  }

  /** Participations in other roles play no part in the feedback. */
  lemma NonPresenterIgnored(eps: seq<EventPerson>, ep: EventPerson)
    requires !IsPresenterRole(ep.eventRole)
    ensures PresenterEvents(eps + [ep]) == PresenterEvents(eps)
  {
    assert (eps + [ep])[..|eps|] == eps;
  }

  /** A participation as speaker or moderator added at the end adds its
      event at the end of the presenter events. */
  lemma PresenterAppended(eps: seq<EventPerson>, ep: EventPerson)
    requires IsPresenterRole(ep.eventRole)
    ensures PresenterEvents(eps + [ep]) == PresenterEvents(eps) + [ep.event]
  {
    FilterSnoc(eps, ep, Presenting());
    var f := Filter(eps, Presenting());
    assert EventsOf(f + [ep]) == EventsOf(f) + [ep.event];
  }

  // ---------------------------------------------------------------------
  // Availabilities and the slider form

  /** A row of the `availabilities` table. */
  datatype Availability = Availability(id: int, personId: int, conferenceId: int)

  /** One value of `params['availabilities_attributes']`: the hash key and
      the submitted `id`, `start_date` and `end_date` fields. The `id` is
      the number the database compares with. */
  datatype AvailabilityEntry = AvailabilityEntry(key: string, id: Option<int>, startDate: Option<string>, endDate: Option<string>)

  /** The sentinel `start_date` of a slider entry to remove. */
  function MarkedForRemoval(): AvailabilityEntry -> bool
  {
    (v: AvailabilityEntry) => ToI(v.startDate) == -1
  }

  /** The entries `select!` keeps: a positive `start_date`. */
  function Dated(): AvailabilityEntry -> bool
  {
    (v: AvailabilityEntry) => ToI(v.startDate) > 0
  }

  function HasOtherId(id: Option<int>): Availability -> bool
  {
    (a: Availability) => Some(a.id) != id
  }

  /** The rows left after `Availability.delete(id)`; a nil id matches no
      row. */
  function WithoutId(rows: seq<Availability>, id: Option<int>): (r: seq<Availability>)
    ensures forall a :: a in r <==> a in rows && Some(a.id) != id
  {
    Filter(rows, HasOtherId(id))
  }

  /** The rows left after the deletion pass over `entries`. */
  function AfterDeletions(rows: seq<Availability>, entries: seq<AvailabilityEntry>): (r: seq<Availability>)
    ensures |r| <= |rows|
    ensures forall a :: a in r ==> a in rows
  {
    if |entries| == 0 then rows
    else
      var v := entries[|entries| - 1];
      var r := AfterDeletions(rows, entries[..|entries| - 1]);
      if MarkedForRemoval()(v) then WithoutId(r, v.id) else r
  }

  /** A row survives the deletion pass exactly when no entry marked with
      `-1` carries its id; which person the row belongs to plays no part. */
  lemma {:induction false} AfterDeletionsKeeps(rows: seq<Availability>, entries: seq<AvailabilityEntry>, a: Availability)
    ensures a in AfterDeletions(rows, entries) <==>
      a in rows && forall j :: 0 <= j < |entries| && ToI(entries[j].startDate) == -1 ==> entries[j].id != Some(a.id)
  {
    if |entries| > 0 {
      var init := entries[..|entries| - 1];
      AfterDeletionsKeeps(rows, init, a);
      assert forall j :: 0 <= j < |init| ==> init[j] == entries[j];
    }
  }

  /** What the slider form does to each entry: those marked `-1` are
      dropped and their row deleted, those with `start_date.to_i == 0` are
      neither kept nor the cause of a deletion, and exactly the entries with
      a positive `start_date` are kept. */
  lemma SliderEntryOutcome(rows: seq<Availability>, entries: seq<AvailabilityEntry>, j: nat)
    requires j < |entries|
    ensures entries[j] in Filter(entries, Dated()) <==> ToI(entries[j].startDate) > 0
    ensures ToI(entries[j].startDate) == -1 ==>
      entries[j] !in Filter(entries, Dated()) &&
      forall a :: a in AfterDeletions(rows, entries) ==> entries[j].id != Some(a.id)
    ensures ToI(entries[j].startDate) == 0 ==> entries[j] !in Filter(entries, Dated())
  {
    forall a | a in AfterDeletions(rows, entries) ensures ToI(entries[j].startDate) == -1 ==> entries[j].id != Some(a.id) {
      AfterDeletionsKeeps(rows, entries, a);
    }
  }

  /** The `availabilities` table, as far as `Availability.delete` reaches. */
  class AvailabilityTable {
    var rows: seq<Availability>

    constructor (rows0: seq<Availability>)
      ensures rows == rows0
    {
      rows := rows0;
    }

    /** `Availability.delete(id)`: removes the row with that id, of any
        person. */
    method Delete(id: Option<int>)
      modifies this
      ensures rows == WithoutId(old(rows), id)
    {
      rows := WithoutId(rows, id);
    }
  }

  /** The request parameters of the slider form; `availabilitiesAttributes`
      is `None` when the key `'availabilities_attributes'` is absent. */
  class SliderParams {
    var availabilitiesAttributes: Option<seq<AvailabilityEntry>>

    constructor (attributes: Option<seq<AvailabilityEntry>>)
      ensures availabilitiesAttributes == attributes
    {
      availabilitiesAttributes := attributes;
    }
  }

  class Person {
    var id: int
    /** The person's `event_people`, in stored order. */
    var eventPeople: seq<EventPerson>

    constructor (id0: int, eventPeople0: seq<EventPerson>)
      ensures id == id0 && eventPeople == eventPeople0
    {
      id := id0;
      eventPeople := eventPeople0;
    }

    /** `set_role_state(conference, state)`: walks the speaker
        participations of the conference in order, setting the state and
        saving each. `saves` stands for the outcome of `save!`; the first
        failing save stops the walk (the exception propagates) and is
        returned as its index. The walk runs in no transaction, so the
        participations saved before the failure keep their new state. */
    method SetRoleState(conferenceId: int, state: string, saves: EventPerson -> bool) returns (failedAt: Option<nat>)
      modifies this
      ensures |eventPeople| == |old(eventPeople)|
      ensures failedAt.None? ==> eventPeople == WithRoleState(old(eventPeople), conferenceId, state)
      ensures failedAt.None? ==> forall j :: 0 <= j < |old(eventPeople)| && WithState(old(eventPeople)[j], conferenceId, state) != old(eventPeople)[j] ==>
        saves(WithState(old(eventPeople)[j], conferenceId, state))
      ensures failedAt.Some? ==> var k := failedAt.value;
        k < |old(eventPeople)| &&
        old(eventPeople)[k].event.conferenceId == conferenceId && IsPresenterRole(old(eventPeople)[k].eventRole) &&
        !saves(old(eventPeople)[k].(roleState := state)) &&
        (forall j :: 0 <= j < k ==> eventPeople[j] == WithState(old(eventPeople)[j], conferenceId, state)) &&
        (forall j :: k <= j < |old(eventPeople)| ==> eventPeople[j] == old(eventPeople)[j])
      ensures id == old(id)
    {
      var i := 0;
      while i < |eventPeople|
        invariant 0 <= i <= |eventPeople| == |old(eventPeople)|
        invariant forall j :: 0 <= j < i ==> eventPeople[j] == WithState(old(eventPeople)[j], conferenceId, state)
        invariant forall j :: i <= j < |eventPeople| ==> eventPeople[j] == old(eventPeople)[j]
        invariant forall j :: 0 <= j < i && WithState(old(eventPeople)[j], conferenceId, state) != old(eventPeople)[j] ==>
          saves(WithState(old(eventPeople)[j], conferenceId, state))
        invariant id == old(id)
      {
        var ep := eventPeople[i];
        if ep.event.conferenceId == conferenceId && IsPresenterRole(ep.eventRole) {
          var updated := ep.(roleState := state);
          if !saves(updated) {
            return Some(i);
          }
          eventPeople := eventPeople[i := updated];
        }
        i := i + 1;
      }
      failedAt := None;
    }

    /** `average_feedback_as_speaker`: over the events of the participations
        as speaker or moderator (in every conference), adds up
        `average_feedback * event_feedbacks_count` and
        `event_feedbacks_count` for the events with an average, and returns
        their quotient, or nil when the count is zero. Floats are modelled
        as exact reals. */
    method AverageFeedbackAsSpeaker() returns (r: Option<real>)
      ensures r == WeightedMean(PresenterEvents(eventPeople))
    {
      var events := PresenterEvents(eventPeople);
      var feedback := 0.0;
      var count := 0;
      var i := 0;
      while i < |events|
        invariant 0 <= i <= |events|
        invariant feedback == FeedbackSum(events[..i]) && count == FeedbackWeight(events[..i])
      {
        var event := events[i];
        assert events[..i + 1][..i] == events[..i];
        if event.averageFeedback.Some? {
          var current := event.averageFeedback.value;
          feedback := feedback + current * event.feedbackCount as real;
          count := count + event.feedbackCount;
        }
        i := i + 1;
      }
      assert events[..i] == events;
      if count == 0 {
        return None;
      }
      r := Some(feedback / count as real);
    }

    /** The filtering part of `update_attributes_from_slider_form(params)`:
        nothing happens without params or without the key
        `'availabilities_attributes'`; otherwise every entry whose
        `start_date.to_i` is -1 has its id deleted from the table, in
        order, and then only the entries with a positive `start_date.to_i`
        are kept, in order. */
    method UpdateAttributesFromSliderForm(params: SliderParams?, table: AvailabilityTable)
      modifies params, table
      ensures params == null ==> table.rows == old(table.rows)
      ensures params != null && old(params.availabilitiesAttributes).None? ==>
        table.rows == old(table.rows) && params.availabilitiesAttributes == old(params.availabilitiesAttributes)
      ensures params != null && old(params.availabilitiesAttributes).Some? ==>
        table.rows == AfterDeletions(old(table.rows), old(params.availabilitiesAttributes).value) &&
        params.availabilitiesAttributes == Some(Filter(old(params.availabilitiesAttributes).value, Dated()))
    {
      if params == null || params.availabilitiesAttributes.None? {
        return;
      }
      var entries := params.availabilitiesAttributes.value;
      var i := 0;
      while i < |entries|
        invariant 0 <= i <= |entries|
        invariant table.rows == AfterDeletions(old(table.rows), entries[..i])
        invariant params.availabilitiesAttributes == old(params.availabilitiesAttributes)
      {
        assert entries[..i + 1][..i] == entries[..i];
        if MarkedForRemoval()(entries[i]) {
          table.Delete(entries[i].id);
        }
        i := i + 1;
      }
      assert entries[..i] == entries;
      params.availabilitiesAttributes := Some(Filter(entries, Dated()));
    }
  }
}
