# frab conference and person models in Dafny

This project models the domain logic of two ActiveRecord models of frab, a
conference-management application: `Conference` (app/models/conference.rb)
and `Person` (app/models/person.rb). Every database relation becomes an
in-memory sequence. Each `where(...)`, `joins(...)` and `count` becomes a
filter, a count or a quantifier over that sequence.

Modules:

- `Collections`: `Option`, and counting, `select` (`Filter`), `uniq`,
  `Array#&` (`Intersect`) and `join` over sequences.
- `Text`: `blank?`, `String#downcase`, string interpolation of a nil
  attribute, and `String#to_i`.
- `Events`: the two records both models read, `Event` and the
  `EventPerson` join record.
- `Conferences`:
  - the `Conference` class: `days`, `submission_data`,
    `language_breakdown` and the `update_timeslots` callback;
  - the `EventAudit` switch that `update_timeslots` turns off and on;
  - `Current`, `EventsByState` and `LanguageCodes`, with the lemmas
    about them.
- `People`:
  - the names;
  - the mailing locale;
  - the participation queries;
  - the role state;
  - the feedback mean;
  - the slider-form clean-up, in the `Person` class beside the
    `AvailabilityTable` and `SliderParams` objects it changes.

Modelling choices:

- Days are integer day numbers. The hash key of a day is
  `DayKey(day) = day * 86400000`, a strictly increasing function of the day.
- `Integer#/` floors. For the positive divisor that `update_timeslots` has,
  this is Dafny's `/`.
- Ruby's `or` and `and` have equal precedence and group to the left. So
  `full_name` tests `(first blank or last blank) and public not blank`.
  `FullNameGroupsLeft` shows an input where the other grouping gives a
  different answer.
- `set_role_state` (app/models/person.rb:111-116) saves each speaker
  participation in turn, with no transaction around the loop. When a
  `save!` raises, the participations saved before it keep the new state
  while the rest keep the old one. The model states this partial outcome.
- `update_timeslots` (app/models/conference.rb:106-116) is meant to keep
  each event's length in minutes when the slot duration changes. The
  factor at line 109 is a floored integer quotient, which keeps the length
  only when the new duration divides the old. The model computes the
  factor as the code does; see "Findings".
- `submission_data` zero-fills only when there is more than one event.
  With exactly one event the first and last creation days coincide, so the
  result is the same single pair either way. `SubmissionData` is proved
  equal, for every event list, to the dense histogram from the first to the
  last creation day.
- The `"unknown"` row of `language_breakdown` stores its count under the
  string key `"data"`, while the other rows use the symbol `:data`. The
  model keeps this difference as `DataKey`.
- `Availability.delete(id)` deletes the row with that id whoever owns it.
  `AfterDeletionsKeeps` states that the owner plays no part.

## Model

| member | source | states |
|---|---|---|
| Collections.Filter | app/models/person.rb:170 | `select` keeps exactly the elements that satisfy the predicate, as many as `Count` counts; FilterAppend gives their order |
| Collections.FilterAppend | app/models/person.rb:133 | `select` of a concatenation is the concatenation of the selections, so the kept elements stay in their order with their multiplicity |
| Collections.FilterNested | app/models/person.rb:170 | a `select` applied to the result of a `select` equals one `select` with both conditions |
| Collections.CountZeroIff | app/models/person.rb:75-80 | a count is zero exactly when no element matches, which is what `count > 0` tests |
| Collections.CountSplit | app/models/conference.rb:59-66 | counting over a disjoint union of two conditions adds the two counts |
| Collections.Uniq | app/models/person.rb:108 | `uniq` keeps the same elements without duplicates, and the first element first |
| Collections.UniqKeepsFirstOccurrenceOrder | app/models/person.rb:108 | `uniq` lists elements in the order of their first occurrence |
| Collections.UniqOfConstant | app/models/person.rb:108 | `uniq` of a non-empty list of equal values is that one value |
| Collections.FilterFirst | app/models/person.rb:170 | the first selected element is the first element satisfying the condition |
| Collections.Intersect | app/models/person.rb:159-160 | `a & b` holds exactly the elements in both `a` and `b`, none twice |
| Collections.Join | app/models/person.rb:108 | `join(sep)` has the length of all parts plus one `sep` between each two, and starts with the first part |
| Collections.JoinLayout | app/models/person.rb:108 | in `join(sep)` every part stands at its offset, exactly one `sep` stands between each two parts, and the string ends with the last part |
| Collections.IntersectFirst | app/models/person.rb:159-160 | the first element of `a & b` is the first element of `a` that occurs in `b` |
| Text.BlankConcat | app/models/person.rb:50-53 | a concatenation of two strings is blank exactly when both parts are |
| Text.SpacedPairBlank | app/models/person.rb:53 | `"#{a} #{b}"` is blank exactly when both `a` and `b` are blank |
| Text.ToI | app/models/person.rb:131 | `to_i` is negative only after a leading `-` behind any whitespace, and never negative when a digit comes first |
| Text.NotBlankInside | app/models/person.rb:53 | a non-blank attribute keeps an interpolated string non-blank |
| Text.DowncaseProperties | app/models/conference.rb:83 | `downcase` keeps the length, leaves no upper-case letter, turns each capital into the lower-case letter at the same place in the alphabet, changes nothing else, and is idempotent |
| Text.DowncaseIgnoresCase | app/models/conference.rb:83 | two strings that differ only in the case of letters give the same `downcase` |
| Text.ToIShowInt | app/models/person.rb:131 | `to_i` reads back every integer's decimal form, so the sentinel `"-1"` reads as -1 |
| Conferences.Current | app/models/conference.rb:20-22 | nil exactly when there are no conferences; otherwise a conference with the latest `created_at` |
| Conferences.Conference.Days | app/models/conference.rb:86-94 | every day from `first_day` to `last_day` inclusive, ascending by one; length `last - first + 1`, empty when `first > last` |
| Conferences.Conference.SubmissionData | app/models/conference.rb:41-57 | the result is the dense histogram over the creation range, empty without events |
| Conferences.ZeroFilledDays | app/models/conference.rb:44-50 | with more than one event, a zero under the key of every day of the creation range and nothing else; otherwise an empty hash |
| Conferences.TallyDays | app/models/conference.rb:51-55 | after the increments, every day of the creation range has its key with the number of events created that day, and no key lies outside the range |
| Conferences.TallyEach | app/models/conference.rb:51-55 | the per-event increment loop keeps the hash equal to the counts of the events seen so far |
| Conferences.IncrementAfterDefault | app/models/conference.rb:53-54 | `h[k] = 0 unless h[k]; h[k] += 1` is one increment, starting from 0 when the key is absent |
| Conferences.TallyStep | app/models/conference.rb:51-55 | one increment extends the counts to one more event |
| Conferences.SortedByDay | app/models/conference.rb:56 | sorting the pairs lists the days of the creation range in ascending order, each with its count |
| Conferences.DayKeyStrictlyIncreasing | app/models/conference.rb:47 | later days have larger keys |
| Conferences.DayKeyInverse | app/models/conference.rb:52 | a day's key is a whole number of days and gives the day back |
| Conferences.Histogram | app/models/conference.rb:41-57 | empty exactly when there are no events; its pairs are stated by HistogramDense |
| Conferences.HistogramStrictlySorted | app/models/conference.rb:56 | the keys are strictly ascending, so none repeats |
| Conferences.HistogramDense | app/models/conference.rb:44-50 | with events, the pairs are exactly the days from the first to the last creation day, each with its count |
| Conferences.CreationRangeAttained | app/models/conference.rb:45-46 | the first and last days of the range are creation days of events |
| Conferences.DayCountZero | app/models/conference.rb:47 | a day's count is 0 exactly when no event was created on it |
| Conferences.HistogramCoversEvent | app/models/conference.rb:51-55 | every event's creation day is a key with a positive count |
| Conferences.HistogramSingleEvent | app/models/conference.rb:44-55 | one event gives one pair with count 1 |
| Conferences.HistogramSum | app/models/conference.rb:51-55 | the counts add up to the number of events |
| Conferences.EventsByState | app/models/conference.rb:59-66 | four one-pair lists labelled 0, 1, 2, 3 in order, whose counts add up to at most the number of events |
| Conferences.EventsByStateCountsBuckets | app/models/conference.rb:59-66 | four one-pair lists labelled 0, 1, 2, 3 in order, counting the four state buckets; the counts add up to the events in one of the seven known states |
| Conferences.WhereMatchesBucket | app/models/conference.rb:61-64 | each `where(:state => ...)` list selects exactly the states of the bucket it is labelled with |
| Conferences.BucketsAddUp | app/models/conference.rb:59-66 | the four bucket counts add up to the events whose state has a bucket |
| Conferences.Conference.LanguageBreakdown | app/models/conference.rb:68-80 | `languages.size + 1` rows: one per registered code in stored order, labelled with the code as stored and counting the (accepted, when asked) events in it; then `"unknown"` counting language `""` under the key `"data"` |
| Conferences.LanguageBreakdownTotal | app/models/conference.rb:75-78 | with distinct non-empty codes covering every event's language or `""`, the rows add up to the number of events counted |
| Conferences.LanguageCodes | app/models/conference.rb:82-84 | as many codes as registered, each of the same length and lower-case |
| Conferences.LanguageCodesProperties | app/models/conference.rb:82-84 | each capital becomes the lower-case letter at the same place in the alphabet, no other character changes, and lower-casing again changes nothing |
| Conferences.EventAudit.RecordUpdate | app/models/conference.rb:110-114 | an update writes an audit row only while auditing is on |
| Conferences.Conference.UpdateTimeslots | app/models/conference.rb:106-116 | unless the duration changed and there is an event, nothing changes; otherwise every event's `time_slots` is multiplied by `old / new` (floored), auditing ends enabled, and no audit row is written |
| Conferences.Rescaled | app/models/conference.rb:111-113 | each event's `time_slots` times the factor, every other field unchanged, same length |
| Conferences.RescaleKeepsMinutesWhenDivisible | app/models/conference.rb:109-112 | when the new duration divides the old, every event keeps its length in minutes |
| Conferences.RescaleNeverAddsMinutes | app/models/conference.rb:109-112 | with positive durations the floored factor never lengthens an event |
| Conferences.FlooredFactorLosesMinutes | app/models/conference.rb:109 | going from 15 to 30 minutes gives factor 0, and a 30-minute event becomes 0 minutes |
| Conferences.ProportionalSlots | app/models/conference.rb:109 | the intended slot count: the old length in minutes rounded down to whole new slots, short by less than one slot |
| Conferences.ProportionalSlotsAgreesWhenDivisible | app/models/conference.rb:109 | where the new duration divides the old, the intended count equals the computed one |
| People.FullName | app/models/person.rb:49-55 | `full_name` is blank exactly when the first, last and public names are all blank |
| People.FullNameGroupsLeft | app/models/person.rb:50 | for blank first name, last `"Doe"` and blank public name the result is `" Doe"`, whereas right grouping would return the public name |
| People.FullPublicName | app/models/person.rb:57-63 | `full_public_name` is blank exactly when all three names are blank |
| People.FullPublicNameChoice | app/models/person.rb:57-63 | the public name when it is not blank, otherwise always `"first last"` |
| People.LocaleForMailing | app/models/person.rb:156-161 | the locale is `en` or a downcased code of both the person and the conference |
| People.LocaleFallsBackToEnglish | app/models/person.rb:159 | `en` when the person lists `en`, lists nothing, or shares no code with the conference |
| People.LocaleIsFirstSharedCode | app/models/person.rb:160 | otherwise the first of the person's downcased codes, in the person's order, that the conference also has |
| People.EventsOf | app/models/person.rb:143 | `map(&:event)` keeps the length, and the event at each position is the event of the participation there |
| People.InvolvedIn | app/models/person.rb:75-80 | true exactly when some participation's event belongs to the conference |
| People.ActiveInAnyConference | app/models/person.rb:82-88 | true exactly when some speaker or moderator participation is on a confirmed or unconfirmed event |
| People.EventsIn | app/models/person.rb:91-93 | the person's events in the conference, each once |
| People.EventsAsPresenterIn | app/models/person.rb:95-97 | the events in the conference that the person presents, each once |
| People.EventsAsPresenterNotIn | app/models/person.rb:99-101 | the events of other conferences that the person presents, each once |
| People.PresenterEventsSplit | app/models/person.rb:95-101 | every presented event is in exactly one of the two presenter queries, and the first lies within `events_in` |
| People.SpeakerRoleState | app/models/person.rb:169-171 | exactly the participations in the conference as speaker or moderator, and the two `select`s equal one `select` over `event_people`, which keeps their stored order |
| People.RoleStatesMembers | app/models/person.rb:108 | `map(&:role_state)` holds exactly the states of the participations |
| People.DistinctRoleStates | app/models/person.rb:107-108 | the distinct role states of those participations, none twice, in the order of their first occurrence, starting with the first participation's state |
| People.RoleState | app/models/person.rb:107-109 | `""` when there is no speaker participation in the conference; otherwise each distinct state at its offset in first-occurrence order, one `", "` between each two and nothing after the last, so the string starts with the state of the first of them |
| People.RoleStateOfUniformStates | app/models/person.rb:107-109 | the one state when all speaker participations there share it |
| People.WithRoleState | app/models/person.rb:111-116 | same length; every participation keeps its event and role; the speaker participations of the conference get the state and the others keep theirs |
| People.RoleStateAfterSet | app/models/person.rb:107-116 | after `set_role_state(c, s)`, `role_state(c)` is `s` when there is a speaker participation in `c` |
| People.SetRoleStateIdempotent | app/models/person.rb:111-116 | setting a state twice is setting it once, and the selected participations stay as many |
| People.SelectionCount | app/models/person.rb:170 | the two `select`s pick as many participations as meet both conditions |
| People.Person.SetRoleState | app/models/person.rb:111-116 | with no failed save, every speaker participation in the conference gets the state and nothing else changes; after a failure, those before the failing one are updated and the rest untouched |
| People.PresenterEvents | app/models/person.rb:143 | as many events as there are speaker and moderator participations, and exactly the events of those participations |
| People.PresenterAppended | app/models/person.rb:143 | a speaker or moderator participation added at the end adds its event at the end |
| People.WeightedMean | app/models/person.rb:144-153 | nil exactly when the total weight is 0; otherwise the mean times the total weight is the weighted sum |
| People.Person.AverageFeedbackAsSpeaker | app/models/person.rb:142-154 | the result is the count-weighted mean over the presented events with an average, nil when the weight is 0 |
| People.WeightedMeanNil | app/models/person.rb:146-152 | the mean is nil exactly when every event with an average has no feedback |
| People.NilAverageIgnored | app/models/person.rb:147 | an event with a nil average changes nothing |
| People.SingleEventMean | app/models/person.rb:148-153 | one event with feedback has its own average as the mean |
| People.NonPresenterIgnored | app/models/person.rb:143 | participations in other roles do not enter the mean |
| People.WithoutId | app/models/person.rb:131 | `Availability.delete(id)` leaves exactly the rows with another id; a nil id deletes nothing |
| People.AvailabilityTable.Delete | app/models/person.rb:131 | the table afterwards is the rows without that id |
| People.AfterDeletions | app/models/person.rb:130-132 | the deletion pass only removes rows: every remaining row was there before, and there are no more rows than before |
| People.AfterDeletionsKeeps | app/models/person.rb:130-132 | a row survives exactly when no entry marked -1 carries its id, whoever owns it |
| People.SliderEntryOutcome | app/models/person.rb:130-133 | an entry is kept exactly when `start_date.to_i > 0`; a -1 entry is dropped and its row is gone; a 0 entry is dropped |
| People.Person.UpdateAttributesFromSliderForm | app/models/person.rb:127-133 | nothing changes without params or the key; otherwise the marked rows are deleted in order and the kept entries are the `select` of the positive ones, in their order (FilterAppend) |

## Left out

- `to_ical` (app/models/conference.rb:24-39): a calendar built by the RiCal library, with the host name in each uid.
- `each_day` (app/models/conference.rb:96-98): it hands each element of `days` to a block, and blocks are not modelled.
- `to_s` of both models, `user_email` and `avatar_path`: string formatting and the `user` and Paperclip attachments.
- `public_and_accepted_events_as_speaker_in` and `availabilities_in`: they depend on the Event scopes and on time-zone conversion, which are not part of this model.
- The SQL scopes `involved_in`, `speaking_at`, `publicly_speaking_at` and `confirmed` (app/models/person.rb:36-47): queries grouped by person for other callers.
- Associations, `dependent: :destroy`, `accepts_nested_attributes_for`, validations, `acts_as_indexed`, `has_paper_trail` and `acts_as_audited`. Auditing is modelled only as an on/off switch with a trail.
- Time zones and dates:
  - The day key `date.to_time.to_i * 1000` is local midnight. It is modelled as `day * 86400000`.
  - `Time.zone.parse` of the slider dates and `update_attributes(params)` itself are not modelled (app/models/person.rb:134-139).
- Conferences.Conference.UpdateTimeslots:
  - each `update_attributes` is taken to succeed;
  - an exception in the loop would leave auditing off, and this is not modelled;
  - `timeslot_duration_was` is taken to be an integer; a nil previous duration makes the division at app/models/conference.rb:109 raise `NoMethodError`, and this is not modelled.
- People.Person.SetRoleState: the outcome of `save!` is a parameter, because the EventPerson validations are not part of this model.
- Floats: feedback averages are exact reals. Rounding is not modelled, and no bound other than the weighting is stated.
- Database order:
  - Among conferences created at the same instant, `Current` keeps the earliest in the list.
  - The `events_*` queries list events in participation order, which the database does not promise.
- NULL columns:
  - Every event is taken to belong to an existing conference, as the joins in `involved_in?` and `active_in_any_conference?` require.
  - An event's language is a string, so the SQL NULL language, which `where(:language => "")` does not count, is not modelled.
- `Event.accepted` is a scope of the Event model, which is not part of this model. It is modelled as a boolean field.
- Symbols (`to_sym`, `:en`) are modelled as their names.
- The slider `id` is modelled as the integer that the database compares with. The string-to-integer cast is not modelled.
- Ruby's `String#downcase` is modelled on ASCII letters. ActiveSupport's `blank?` is modelled with ASCII whitespace only, which simplifies its Unicode whitespace test. There is no Unicode case mapping or Unicode whitespace.

## Findings

| source | as written | input that shows it | evidently intended | confidence | as-written member | corrected member |
|---|---|---|---|---|---|---|
| app/models/conference.rb:109 | `factor = old_duration / self.timeslot_duration` divides two integers, so the factor is floored | the duration changes from 15 to 30 on an event of 2 slots (30 minutes): the factor is 0, and the event becomes 0 slots, 0 minutes | the new slot count is `time_slots * old / new`, which keeps the length to within one new slot | not executed | Conferences.FlooredFactorLosesMinutes | Conferences.ProportionalSlots |
