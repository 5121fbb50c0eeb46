/** The Conference model: its day range, the statistics views over its
    events, its language codes, the choice of the current conference, and
    the rescaling of every event's `time_slots` when the conference's
    timeslot duration changes. The conference's `events` and `languages`
    associations are in-memory sequences. */
module Conferences {
  import opened Collections
  import opened Text
  import opened Events

  /** The switch `Event.disable_auditing` / `Event.enable_auditing` turns,
      with the audit trail it guards: the ids of the events whose updates
      were recorded. */
  class EventAudit {
    var enabled: bool
    var log: seq<int>

    constructor ()
      ensures enabled && log == []
    {
      enabled := true;
      log := [];
    }

    method DisableAuditing()
      modifies this
      ensures !enabled && log == old(log)
    {
      enabled := false;
    }

    method EnableAuditing()
      modifies this
      ensures enabled && log == old(log)
    {
      enabled := true;
    }

    /** The audit callback an event update runs: it writes an audit row only
        while auditing is on. */
    method RecordUpdate(eventId: int)
      modifies this
      ensures enabled == old(enabled)
      ensures log == if old(enabled) then old(log) + [eventId] else old(log)
    {
      if enabled {
        log := log + [eventId];
      }
    }
  }

  class Conference {
    var id: int
    var createdAt: int
    var timeslotDuration: int
    var firstDay: int
    var lastDay: int
    var events: seq<Event>
    /** The codes of the attached Language records, in stored order. */
    var languages: seq<string>

    /** `days`: every day from `first_day` to `last_day` inclusive, in
        ascending order; empty when `first_day > last_day`. */
    method Days() returns (result: seq<int>)
      ensures |result| == if firstDay <= lastDay then lastDay - firstDay + 1 else 0
      ensures forall i :: 0 <= i < |result| ==> result[i] == firstDay + i
    {
      result := [];
      var day := firstDay;
      while !(day > lastDay)
        invariant firstDay <= day
        invariant day <= lastDay + 1 || day == firstDay
        invariant |result| == day - firstDay
        invariant forall i :: 0 <= i < |result| ==> result[i] == firstDay + i
        decreases lastDay - day
      {
        result := result + [day];
        day := day + 1;
      }
    }

    /** `submission_data`: builds the day histogram in a hash (zero-filled
        over the whole creation range when there is more than one event,
        then one increment per event) and returns its pairs sorted by key. */
    method SubmissionData() returns (result: seq<(int, nat)>)
      ensures result == Histogram(events)
    {
      var evs := events;
      var counts := ZeroFilledDays(evs);
      counts := TallyDays(evs, counts);
      result := SortedByDay(evs, counts);
    }

    /** `language_breakdown(accepted_only)`: one row per registered language
        in stored order, labelled with the code as stored and counting the
        (accepted, when asked) events in that language, then one `"unknown"`
        row counting the events whose language is `""`. That last row keeps
        its count under the string key `"data"`, the others under the
        symbol `:data`. */
    method LanguageBreakdown(acceptedOnly: bool) returns (result: seq<LanguageRow>)
      ensures |result| == |languages| + 1
      ensures forall i :: 0 <= i < |languages| ==>
        result[i] == LanguageRow(languages[i], SymbolKey, LanguageCount(BaseRelation(events, acceptedOnly), languages[i]))
      ensures result[|languages|] == LanguageRow("unknown", StringKey, LanguageCount(BaseRelation(events, acceptedOnly), ""))
    {
      var base := BaseRelation(events, acceptedOnly);
      result := [];
      var i := 0;
      while i < |languages|
        invariant 0 <= i <= |languages|
        invariant |result| == i
        invariant forall j :: 0 <= j < i ==> result[j] == LanguageRow(languages[j], SymbolKey, LanguageCount(base, languages[j]))
      {
        result := result + [LanguageRow(languages[i], SymbolKey, LanguageCount(base, languages[i]))];
        i := i + 1;
      }
      result := result + [LanguageRow("unknown", StringKey, LanguageCount(base, ""))];
    }

    /** `update_timeslots` (an `after_update` callback; `timeslot_duration`
        already holds the new value and `durationWas` is
        `timeslot_duration_was`). When the duration changed and there is at
        least one event, every event's `time_slots` is multiplied by the
        integer quotient `durationWas / timeslotDuration` (Ruby's
        `Integer#/`, which floors; for a positive divisor Dafny's `/` is the
        same), with auditing switched off around the loop and switched on
        after it, so no audit row is written. Otherwise nothing changes. */
    method UpdateTimeslots(durationWas: int, audit: EventAudit)
      requires timeslotDuration > 0
      modifies this`events, audit
      ensures durationWas != timeslotDuration && |old(events)| > 0 ==>
        events == Rescaled(old(events), durationWas / timeslotDuration) && audit.enabled
      ensures !(durationWas != timeslotDuration && |old(events)| > 0) ==>
        events == old(events) && audit.enabled == old(audit.enabled)
      ensures audit.log == old(audit.log)
    {
      if durationWas != timeslotDuration && |events| > 0 {
        var factor := durationWas / timeslotDuration;
        audit.DisableAuditing();
        var i := 0;
        while i < |events|
          invariant 0 <= i <= |events| == |old(events)|
          invariant forall j :: 0 <= j < i ==> events[j] == old(events)[j].(timeSlots := old(events)[j].timeSlots * factor)
          invariant forall j :: i <= j < |events| ==> events[j] == old(events)[j]
          invariant !audit.enabled && audit.log == old(audit.log)
        {
          events := events[i := events[i].(timeSlots := events[i].timeSlots * factor)];
          audit.RecordUpdate(events[i].id);
          i := i + 1;
        }
        audit.EnableAuditing();
      }
    }
  }

  /** `Conference.current`: the most recently created conference, nil when
      there is none. Among conferences created at the same instant the
      database's order decides; this model keeps the earliest in `cs`. */
  function Current(cs: seq<Conference>): (r: Option<Conference>)
    reads cs
    ensures r.None? <==> |cs| == 0
    ensures r.Some? ==> r.value in cs && forall i :: 0 <= i < |cs| ==> cs[i].createdAt <= r.value.createdAt
  {
    if |cs| == 0 then None
    else
      var last := cs[|cs| - 1];
      match Current(cs[..|cs| - 1])
      case None => Some(last)
      case Some(c) => if last.createdAt > c.createdAt then Some(last) else Some(c)
  }

  // ---------------------------------------------------------------------
  // Days and the submission histogram

  const MillisPerDay: int := 86400000

  /** The hash key of a day, `date.to_time.to_i * 1000`: with days counted
      from the epoch, the milliseconds at its start. */
  function DayKey(day: int): int
  {
    day * MillisPerDay
  }

  lemma DayKeyInverse(day: int)
    ensures DayKey(day) / MillisPerDay == day && DayKey(day) % MillisPerDay == 0
  {
  }

  /** Later days have larger keys, so sorting by key is sorting by day. */
  lemma DayKeyStrictlyIncreasing(a: int, b: int)
    requires a < b
    ensures DayKey(a) < DayKey(b)
  {
  }

  predicate IsKeyOfDayIn(k: int, lo: int, hi: int)
  {
    k % MillisPerDay == 0 && lo <= k / MillisPerDay <= hi
  }

  /** The creation day of the first event under `order(:created_at)`. */
  function FirstCreated(evs: seq<Event>): (d: int)
    requires |evs| > 0
    ensures forall i :: 0 <= i < |evs| ==> d <= evs[i].createdDay
  {
    if |evs| == 1 then evs[0].createdDay
    else
      var m := FirstCreated(evs[..|evs| - 1]);
      if evs[|evs| - 1].createdDay < m then evs[|evs| - 1].createdDay else m
  }

  /** The creation day of the last event under `order(:created_at)`. */
  function LastCreated(evs: seq<Event>): (d: int)
    requires |evs| > 0
    ensures forall i :: 0 <= i < |evs| ==> evs[i].createdDay <= d
  {
    if |evs| == 1 then evs[0].createdDay
    else
      var m := LastCreated(evs[..|evs| - 1]);
      if evs[|evs| - 1].createdDay > m then evs[|evs| - 1].createdDay else m
  }

  function CreatedOn(day: int): Event -> bool
  {
    (e: Event) => e.createdDay == day
  }

  function CreatedIn(lo: int, hi: int): Event -> bool
  {
    (e: Event) => lo <= e.createdDay < hi
  }

  /** The number of events created on `day`. */
  function DayCount(evs: seq<Event>, day: int): nat
  {
    Count(evs, CreatedOn(day))
  }

  /** The `n` pairs (key, count) of the days `lo`, ..., `lo + n - 1`. */
  function DenseHistogram(evs: seq<Event>, lo: int, n: nat): seq<(int, nat)>
  {
    seq(n, i requires 0 <= i < n => (DayKey(lo + i), DayCount(evs, lo + i)))
  }

  lemma DenseHistogramExtend(evs: seq<Event>, lo: int, n: nat)
    ensures DenseHistogram(evs, lo, n + 1) == DenseHistogram(evs, lo, n) + [(DayKey(lo + n), DayCount(evs, lo + n))]
  {
  }

  /** The keys of `counts` are keys of days from the first to the last
      creation day; there are none without events. */
  predicate KeysInCreationRange(evs: seq<Event>, counts: map<int, nat>)
  {
    if |evs| == 0 then counts == map[]
    else forall k :: k in counts ==> IsKeyOfDayIn(k, FirstCreated(evs), LastCreated(evs))
  }

  /** The first loop of `submission_data`: with more than one event, a zero
      for every day from the first to the last creation day. */
  method ZeroFilledDays(evs: seq<Event>) returns (counts: map<int, nat>)
    ensures KeysInCreationRange(evs, counts)
    ensures forall k :: k in counts ==> counts[k] == 0
    ensures |evs| <= 1 ==> counts == map[]
    ensures |evs| > 1 ==> forall d :: FirstCreated(evs) <= d <= LastCreated(evs) ==> DayKey(d) in counts
  {
    counts := map[];
    if |evs| > 1 {
      var date := FirstCreated(evs);
      while date <= LastCreated(evs)
        invariant FirstCreated(evs) <= date <= LastCreated(evs) + 1
        invariant forall k :: k in counts ==> IsKeyOfDayIn(k, FirstCreated(evs), LastCreated(evs)) && counts[k] == 0
        invariant forall d :: FirstCreated(evs) <= d < date ==> DayKey(d) in counts
      {
        DayKeyInverse(date);
        counts := counts[DayKey(date) := 0];
        date := date + 1;
      }
    }
  }

  /** The second loop of `submission_data`: one increment per event under
      the key of its creation day, starting the key at 0 when absent. */
  method TallyDays(evs: seq<Event>, zero: map<int, nat>) returns (counts: map<int, nat>)
    requires KeysInCreationRange(evs, zero)
    requires forall k :: k in zero ==> zero[k] == 0
    requires |evs| <= 1 ==> zero == map[]
    requires |evs| > 1 ==> forall d :: FirstCreated(evs) <= d <= LastCreated(evs) ==> DayKey(d) in zero
    ensures KeysInCreationRange(evs, counts)
    ensures |evs| > 0 ==> forall d :: FirstCreated(evs) <= d <= LastCreated(evs) ==>
      DayKey(d) in counts && counts[DayKey(d)] == DayCount(evs, d)
  {
    counts := zero;
    if |evs| == 0 {
      return;
    }
    TallyStart(evs, zero);
    counts := TallyEach(evs, FirstCreated(evs), LastCreated(evs), zero);
    TallyDone(evs, counts);
  }

  /** `events.each { ... result[date] = 0 unless result[date]; result[date] += 1 }` */
  method TallyEach(evs: seq<Event>, ghost lo: int, ghost hi: int, start: map<int, nat>) returns (counts: map<int, nat>)
    requires |evs| > 0 && lo == FirstCreated(evs) && hi == LastCreated(evs)
    requires Tallied(evs, lo, hi, 0, start)
    ensures Tallied(evs, lo, hi, |evs|, counts)
  {
    counts := start;
    var i := 0;
    while i < |evs|
      invariant 0 <= i <= |evs|
      invariant Tallied(evs, lo, hi, i, counts)
    {
      var key := DayKey(evs[i].createdDay);
      ghost var before := counts;
      if key !in counts {
        counts := counts[key := 0];
      }
      ghost var present := counts;
      counts := counts[key := counts[key] + 1];
      assert lo <= evs[i].createdDay <= hi;
      TallyStep(evs, lo, hi, i, before, present, counts);
      i := i + 1;
    }
  }

  lemma TallyStart(evs: seq<Event>, zero: map<int, nat>)
    requires |evs| > 0 && KeysInCreationRange(evs, zero)
    requires forall k :: k in zero ==> zero[k] == 0
    requires |evs| <= 1 ==> zero == map[]
    requires |evs| > 1 ==> forall d :: FirstCreated(evs) <= d <= LastCreated(evs) ==> DayKey(d) in zero
    ensures Tallied(evs, FirstCreated(evs), LastCreated(evs), 0, zero)
  {
    assert evs[..0] == [];
  }

  lemma TallyDone(evs: seq<Event>, counts: map<int, nat>)
    requires |evs| > 0 && Tallied(evs, FirstCreated(evs), LastCreated(evs), |evs|, counts)
    ensures KeysInCreationRange(evs, counts)
    ensures forall d :: FirstCreated(evs) <= d <= LastCreated(evs) ==>
      DayKey(d) in counts && counts[DayKey(d)] == DayCount(evs, d)
  {
    assert evs[..|evs|] == evs;
    if |evs| == 1 {
      assert DayCount(evs, FirstCreated(evs)) > 0;
    }
    forall d | FirstCreated(evs) <= d <= LastCreated(evs)
      ensures DayKey(d) in counts && counts[DayKey(d)] == DayCount(evs, d)
    {
      DayKeyInverse(d);
    }
  }

  /** The hash after the first `i` events of the second loop of
      `submission_data`. Its three conjuncts are, in order,
      `KeysInRange`, `DaysPresent` and `CountsMatch` below; the loop
      invariant keeps them written out and the step lemmas take them one
      at a time, which keeps each proof small. */
  predicate Tallied(evs: seq<Event>, lo: int, hi: int, i: nat, counts: map<int, nat>)
    requires i <= |evs|
  {
    (forall k :: k in counts ==> IsKeyOfDayIn(k, lo, hi)) &&
    (forall d :: lo <= d <= hi && (|evs| > 1 || DayCount(evs[..i], d) > 0) ==> DayKey(d) in counts) &&
    (forall k :: k in counts ==> counts[k] == DayCount(evs[..i], k / MillisPerDay))
  }

  /** Every key is the key of a day from `lo` to `hi`. */
  predicate KeysInRange(counts: map<int, nat>, lo: int, hi: int)
  {
    forall k :: k in counts ==> IsKeyOfDayIn(k, lo, hi)
  }

  /** Every day of the range has its key: all of them once the first loop
      has zero-filled the hash, otherwise those with an event so far. */
  predicate DaysPresent(evs: seq<Event>, lo: int, hi: int, i: nat, counts: map<int, nat>)
    requires i <= |evs|
  {
    forall d :: lo <= d <= hi && (|evs| > 1 || DayCount(evs[..i], d) > 0) ==> DayKey(d) in counts
  }

  /** Every key holds the number of the first `i` events created on its day. */
  predicate CountsMatch(evs: seq<Event>, i: nat, counts: map<int, nat>)
    requires i <= |evs|
  {
    forall k :: k in counts ==> counts[k] == DayCount(evs[..i], k / MillisPerDay)
  }

  lemma TallyStep(evs: seq<Event>, lo: int, hi: int, i: nat, counts: map<int, nat>, present: map<int, nat>, next: map<int, nat>)
    requires i < |evs| && lo <= evs[i].createdDay <= hi && Tallied(evs, lo, hi, i, counts)
    requires var key := DayKey(evs[i].createdDay);
      present == (if key in counts then counts else counts[key := 0]) && key in present &&
      next == present[key := present[key] + 1]
    ensures Tallied(evs, lo, hi, i + 1, next)
  {
    var day := evs[i].createdDay;
    var key := DayKey(day);
    IncrementAfterDefault(counts, present, next, key);
    DayKeyInverse(day);
    if key !in counts {
      assert !(|evs| > 1 || DayCount(evs[..i], day) > 0);
    }
    TallyStepCounts(evs, lo, hi, i, counts, next);
    TallyStepKeys(evs, lo, hi, i, counts, next);
    TallyStepRange(lo, hi, day, counts, next);
  }

  /** The key added by one increment is that of a day in the range. */
  lemma TallyStepRange(lo: int, hi: int, day: int, counts: map<int, nat>, next: map<int, nat>)
    requires lo <= day <= hi
    requires KeysInRange(counts, lo, hi)
    requires forall k :: k in next <==> k in counts || k == DayKey(day)
    ensures KeysInRange(next, lo, hi)
  {
    DayKeyInverse(day);
  }

  lemma TallyStepKeys(evs: seq<Event>, lo: int, hi: int, i: nat, counts: map<int, nat>, next: map<int, nat>)
    requires i < |evs|
    requires DaysPresent(evs, lo, hi, i, counts)
    requires forall k :: k in next <==> k in counts || k == DayKey(evs[i].createdDay)
    ensures DaysPresent(evs, lo, hi, i + 1, next)
  {
    forall d | lo <= d <= hi && (|evs| > 1 || DayCount(evs[..i + 1], d) > 0)
      ensures DayKey(d) in next
    {
      DayCountExtend(evs, i, d);
    }
  }

  /** `h[k] = 0 unless h[k]; h[k] += 1` is one increment, from 0 when the
      key is absent. */
  lemma IncrementAfterDefault(counts: map<int, nat>, present: map<int, nat>, next: map<int, nat>, key: int)
    requires present == (if key in counts then counts else counts[key := 0]) && key in present
    requires next == present[key := present[key] + 1]
    ensures next == if key in counts then counts[key := counts[key] + 1] else counts[key := 1]
    ensures forall k :: k in next <==> k in counts || k == key
  {
    if key !in counts {
      assert present[key] == 0;
    }
  }

  lemma TallyStepCounts(evs: seq<Event>, lo: int, hi: int, i: nat, counts: map<int, nat>, next: map<int, nat>)
    requires i < |evs|
    requires KeysInRange(counts, lo, hi) && CountsMatch(evs, i, counts)
    requires DayKey(evs[i].createdDay) !in counts ==> DayCount(evs[..i], evs[i].createdDay) == 0
    requires var key := DayKey(evs[i].createdDay);
      next == if key in counts then counts[key := counts[key] + 1] else counts[key := 1]
    ensures CountsMatch(evs, i + 1, next)
  {
    var key := DayKey(evs[i].createdDay);
    DayKeyInverse(evs[i].createdDay);
    forall k | k in next
      ensures next[k] == DayCount(evs[..i + 1], k / MillisPerDay)
    {
      DayCountExtend(evs, i, k / MillisPerDay);
      if k != key {
        KeyOfItsDay(k);
      }
    }
  }

  lemma DayCountExtend(evs: seq<Event>, i: nat, day: int)
    requires i < |evs|
    ensures DayCount(evs[..i + 1], day) == DayCount(evs[..i], day) + (if evs[i].createdDay == day then 1 else 0)
  {
    assert evs[..i + 1][..i] == evs[..i];
  }

  lemma KeyOfItsDay(k: int)
    requires k % MillisPerDay == 0
    ensures DayKey(k / MillisPerDay) == k
  {
  }

  /** `result.to_a.sort`: since every key is the key of a day of the
      creation range, walking that range in ascending order lists the
      pairs sorted by key. */
  method SortedByDay(evs: seq<Event>, counts: map<int, nat>) returns (result: seq<(int, nat)>)
    requires KeysInCreationRange(evs, counts)
    requires |evs| > 0 ==> forall d :: FirstCreated(evs) <= d <= LastCreated(evs) ==>
      DayKey(d) in counts && counts[DayKey(d)] == DayCount(evs, d)
    ensures result == Histogram(evs)
  {
    result := [];
    if |evs| > 0 {
      var lo := FirstCreated(evs);
      var day := lo;
      while day <= LastCreated(evs)
        invariant lo <= day <= LastCreated(evs) + 1
        invariant result == DenseHistogram(evs, lo, day - lo)
      {
        var key := DayKey(day);
        DenseHistogramExtend(evs, lo, day - lo);
        if key in counts {
          result := result + [(key, counts[key])];
        }
        day := day + 1;
      }
    }
  }

  /** What `submission_data` returns: for every day from the first to the
      last creation day, its key and the number of events created on it;
      nothing when there are no events. */
  function Histogram(evs: seq<Event>): (h: seq<(int, nat)>)
    ensures |h| == 0 <==> |evs| == 0
  {
    assert |evs| > 0 ==> FirstCreated(evs) <= evs[0].createdDay <= LastCreated(evs);
    if |evs| == 0 then []
    else DenseHistogram(evs, FirstCreated(evs), LastCreated(evs) - FirstCreated(evs) + 1)
  }

  function SumCounts(pairs: seq<(int, nat)>): nat
  {
    if |pairs| == 0 then 0 else SumCounts(pairs[..|pairs| - 1]) + pairs[|pairs| - 1].1
  }

  /** The histogram's keys are strictly ascending, so no key repeats. */
  lemma HistogramStrictlySorted(evs: seq<Event>, i: nat, j: nat)
    requires i < j < |Histogram(evs)|
    ensures Histogram(evs)[i].0 < Histogram(evs)[j].0
  {
    DayKeyStrictlyIncreasing(FirstCreated(evs) + i, FirstCreated(evs) + j);
  }

  /** With at least one event the keys are exactly those of the days from
      the first to the last creation day, in order, each with the number of
      events created on it (zero-filled, see DayCountZero). */
  lemma HistogramDense(evs: seq<Event>)
    requires |evs| > 0
    ensures |Histogram(evs)| == LastCreated(evs) - FirstCreated(evs) + 1
    ensures forall i :: 0 <= i < |Histogram(evs)| ==>
      Histogram(evs)[i] == (DayKey(FirstCreated(evs) + i), DayCount(evs, FirstCreated(evs) + i))
  {
    HistogramUnfold(evs);
  }

  lemma HistogramUnfold(evs: seq<Event>)
    requires |evs| > 0
    ensures FirstCreated(evs) <= LastCreated(evs)
    ensures Histogram(evs) == DenseHistogram(evs, FirstCreated(evs), LastCreated(evs) - FirstCreated(evs) + 1)
  {
    assert FirstCreated(evs) <= evs[0].createdDay <= LastCreated(evs);
  }

  /** The first and the last creation day are creation days of events, so
      the histogram starts and ends with a positive count. */
  lemma {:induction false} CreationRangeAttained(evs: seq<Event>)
    requires |evs| > 0
    ensures exists i :: 0 <= i < |evs| && evs[i].createdDay == FirstCreated(evs)
    ensures exists i :: 0 <= i < |evs| && evs[i].createdDay == LastCreated(evs)
  {
    if |evs| > 1 {
      var init := evs[..|evs| - 1];
      CreationRangeAttained(init);
      var i :| 0 <= i < |init| && init[i].createdDay == FirstCreated(init);
      var j :| 0 <= j < |init| && init[j].createdDay == LastCreated(init);
      var n := |evs| - 1;
      assert evs[i] == init[i] && evs[j] == init[j];
      if evs[n].createdDay < FirstCreated(init) {
        assert evs[n].createdDay == FirstCreated(evs);
      } else {
        assert evs[i].createdDay == FirstCreated(evs);
      }
      if evs[n].createdDay > LastCreated(init) {
        assert evs[n].createdDay == LastCreated(evs);
      } else {
        assert evs[j].createdDay == LastCreated(evs);
      }
    } else {
      assert evs[0].createdDay == FirstCreated(evs) == LastCreated(evs);
    }
  }

  /** A day counts 0 exactly when no event was created on it. */
  lemma DayCountZero(evs: seq<Event>, day: int)
    ensures DayCount(evs, day) == 0 <==> forall k :: 0 <= k < |evs| ==> evs[k].createdDay != day
  {
    CountZeroIff(evs, CreatedOn(day));
    assert forall k :: 0 <= k < |evs| ==> (CreatedOn(day)(evs[k]) <==> evs[k].createdDay == day);
  }

  /** Every event's creation day is a key, with a positive count. */
  lemma HistogramCoversEvent(evs: seq<Event>, k: nat)
    requires k < |evs|
    ensures var i := evs[k].createdDay - FirstCreated(evs);
      0 <= i < |Histogram(evs)| && Histogram(evs)[i] == (DayKey(evs[k].createdDay), DayCount(evs, evs[k].createdDay)) &&
      Histogram(evs)[i].1 > 0
  {
    var d := evs[k].createdDay;
    HistogramDense(evs);
    assert FirstCreated(evs) <= d <= LastCreated(evs);
    DayCountZero(evs, d);
  }

  /** A single event gives a single pair with count 1. */
  lemma HistogramSingleEvent(e: Event)
    ensures Histogram([e]) == [(DayKey(e.createdDay), 1)]
  {
    var d := e.createdDay;
    assert FirstCreated([e]) == d && LastCreated([e]) == d;
    assert [e][..0] == [];
    assert DayCount([e], d) == Count([e][..0], CreatedOn(d)) + 1;
    assert Histogram([e]) == DenseHistogram([e], d, 1);
    assert DenseHistogram([e], d, 1)[0] == (DayKey(d), DayCount([e], d));
  }

  /** The counts add up to the number of events. */
  lemma HistogramSum(evs: seq<Event>)
    ensures SumCounts(Histogram(evs)) == |evs|
  {
    if |evs| > 0 {
      var lo, hi := FirstCreated(evs), LastCreated(evs);
      DenseSum(evs, lo, hi - lo + 1);
      CountAll(evs, CreatedIn(lo, hi + 1));
    }
  }

  lemma {:induction false} DenseSum(evs: seq<Event>, lo: int, n: nat)
    ensures SumCounts(DenseHistogram(evs, lo, n)) == Count(evs, CreatedIn(lo, lo + n))
  {
    if n == 0 {
      CountZeroIff(evs, CreatedIn(lo, lo));
    } else {
      var h := DenseHistogram(evs, lo, n);
      assert h[..n - 1] == DenseHistogram(evs, lo, n - 1);
      assert SumCounts(h) == SumCounts(h[..n - 1]) + DayCount(evs, lo + (n - 1));
      DenseSum(evs, lo, n - 1);
      CountSplit(evs, CreatedIn(lo, lo + n), CreatedIn(lo, lo + n - 1), CreatedOn(lo + n - 1));
    }
  }

  // ---------------------------------------------------------------------
  // Events by state

  function HasStateIn(states: seq<string>): Event -> bool
  {
    (e: Event) => e.state in states
  }

  /** `self.events.where(:state => states).count`. */
  function StatesCount(evs: seq<Event>, states: seq<string>): nat
  {
    Count(evs, HasStateIn(states))
  }

  /** `events_by_state`: four one-pair lists labelled 0 to 3, in that order. */
  function EventsByState(evs: seq<Event>): (r: seq<seq<(int, nat)>>)
    ensures |r| == 4 && forall k :: 0 <= k < 4 ==> |r[k]| == 1 && r[k][0].0 == k
    ensures r[0][0].1 + r[1][0].1 + r[2][0].1 + r[3][0].1 <= |evs|
  {
    WhereMatchesBucket(evs, ["new", "review"], 0);
    WhereMatchesBucket(evs, ["unconfirmed", "confirmed"], 1);
    WhereMatchesBucket(evs, ["rejected"], 2);
    WhereMatchesBucket(evs, ["withdrawn", "canceled"], 3);
    BucketsAddUp(evs);
    [ [(0, StatesCount(evs, ["new", "review"]))],
      [(1, StatesCount(evs, ["unconfirmed", "confirmed"]))],
      [(2, StatesCount(evs, ["rejected"]))],
      [(3, StatesCount(evs, ["withdrawn", "canceled"]))] ]
  }

  /** The reporting bucket of each of the seven event states; any other
      state string has none. */
  function StateBucket(state: string): Option<nat>
  {
    if state == "new" || state == "review" then Some(0)
    else if state == "unconfirmed" || state == "confirmed" then Some(1)
    else if state == "rejected" then Some(2)
    else if state == "withdrawn" || state == "canceled" then Some(3)
    else None
  }

  function InBucket(b: nat): Event -> bool
  {
    (e: Event) => StateBucket(e.state) == Some(b)
  }

  function BucketBelow(n: nat): Event -> bool
  {
    (e: Event) => StateBucket(e.state).Some? && StateBucket(e.state).value < n
  }

  /** `events_by_state` counts, under labels 0, 1, 2, 3 in that order, the
      events of each bucket; the four counts add up to the number of events
      in one of the seven known states. */
  lemma EventsByStateCountsBuckets(evs: seq<Event>)
    ensures EventsByState(evs) ==
      [ [(0, Count(evs, InBucket(0)))], [(1, Count(evs, InBucket(1)))],
        [(2, Count(evs, InBucket(2)))], [(3, Count(evs, InBucket(3)))] ]
    ensures EventsByState(evs)[0][0].1 + EventsByState(evs)[1][0].1 +
            EventsByState(evs)[2][0].1 + EventsByState(evs)[3][0].1 == Count(evs, BucketBelow(4))
  {
    WhereMatchesBucket(evs, ["new", "review"], 0);
    WhereMatchesBucket(evs, ["unconfirmed", "confirmed"], 1);
    WhereMatchesBucket(evs, ["rejected"], 2);
    WhereMatchesBucket(evs, ["withdrawn", "canceled"], 3);
    BucketsAddUp(evs);
  }

  /** The states each `where` of `events_by_state` lists are exactly those
      of the bucket it is labelled with. */
  lemma WhereMatchesBucket(evs: seq<Event>, states: seq<string>, b: nat)
    requires (b, states) in
      {(0, ["new", "review"]), (1, ["unconfirmed", "confirmed"]), (2, ["rejected"]), (3, ["withdrawn", "canceled"])}
    ensures StatesCount(evs, states) == Count(evs, InBucket(b))
  {
    forall s ensures s in states <==> StateBucket(s) == Some(b) {
      if StateBucket(s) == Some(b) {
        assert s in states;
      }
    }
    CountCongruent(evs, HasStateIn(states), InBucket(b));
  }

  lemma BucketsAddUp(evs: seq<Event>)
    ensures Count(evs, InBucket(0)) + Count(evs, InBucket(1)) + Count(evs, InBucket(2)) + Count(evs, InBucket(3))
      == Count(evs, BucketBelow(4))
  {
    CountCongruent(evs, BucketBelow(1), InBucket(0));
    CountSplit(evs, BucketBelow(2), BucketBelow(1), InBucket(1));
    CountSplit(evs, BucketBelow(3), BucketBelow(2), InBucket(2));
    CountSplit(evs, BucketBelow(4), BucketBelow(3), InBucket(3));
  }

  // ---------------------------------------------------------------------
  // Languages

  /** The key a breakdown row keeps its count under: `:data` or `"data"`. */
  datatype DataKey = SymbolKey | StringKey

  /** One `{:label => ..., :data => ...}` hash of `language_breakdown`. */
  datatype LanguageRow = LanguageRow(name: string, dataKey: DataKey, data: nat)

  function IsAccepted(): Event -> bool
  {
    (e: Event) => e.accepted
  }

  /** `self.events.accepted` when `acceptedOnly`, else `self.events`. */
  function BaseRelation(evs: seq<Event>, acceptedOnly: bool): seq<Event>
  {
    if acceptedOnly then Filter(evs, IsAccepted()) else evs
  }

  function HasLanguage(code: string): Event -> bool
  {
    (e: Event) => e.language == code
  }

  function HasLanguageIn(codes: seq<string>): Event -> bool
  {
    (e: Event) => e.language in codes
  }

  /** `base_relation.where(:language => code).count`. */
  function LanguageCount(evs: seq<Event>, code: string): nat
  {
    Count(evs, HasLanguage(code))
  }

  /** The sum of the `data` counts of a breakdown. */
  function SumData(rows: seq<LanguageRow>): nat
  {
    if |rows| == 0 then 0 else SumData(rows[..|rows| - 1]) + rows[|rows| - 1].data
  }

  /** The rows of a breakdown add up to the number of events counted, when
      the registered codes are distinct, none of them is `""`, and every
      event's language is a registered code or `""`. */
  lemma LanguageBreakdownTotal(evs: seq<Event>, codes: seq<string>, rows: seq<LanguageRow>)
    requires forall i, j :: 0 <= i < j < |codes| ==> codes[i] != codes[j]
    requires "" !in codes
    requires forall k :: 0 <= k < |evs| ==> evs[k].language in codes || evs[k].language == ""
    requires |rows| == |codes| + 1
    requires forall i :: 0 <= i < |codes| ==> rows[i].data == LanguageCount(evs, codes[i])
    requires rows[|codes|].data == LanguageCount(evs, "")
    ensures SumData(rows) == |evs|
  {
    assert rows[..|codes|][..|codes|] == rows[..|codes|];
    SumDataByCode(evs, codes, rows[..|codes|]);
    assert rows[..|rows| - 1] == rows[..|codes|];
    CountSplit(evs, HasLanguageIn(codes + [""]), HasLanguageIn(codes), HasLanguage(""));
    CountAll(evs, HasLanguageIn(codes + [""]));
  }

  lemma {:induction false} SumDataByCode(evs: seq<Event>, codes: seq<string>, rows: seq<LanguageRow>)
    requires forall i, j :: 0 <= i < j < |codes| ==> codes[i] != codes[j]
    requires |rows| == |codes|
    requires forall i :: 0 <= i < |codes| ==> rows[i].data == LanguageCount(evs, codes[i])
    ensures SumData(rows) == Count(evs, HasLanguageIn(codes))
  {
    var n := |codes|;
    if n == 0 {
      CountZeroIff(evs, HasLanguageIn(codes));
    } else {
      var init := codes[..n - 1];
      assert codes == init + [codes[n - 1]];
      SumDataByCode(evs, init, rows[..n - 1]);
      CountSplit(evs, HasLanguageIn(codes), HasLanguageIn(init), HasLanguage(codes[n - 1]));
    }
  }

  /** `language_codes`: the registered codes, lower-cased. */
  function LanguageCodes(codes: seq<string>): (r: seq<string>)
    ensures |r| == |codes|
    ensures forall i :: 0 <= i < |r| ==> |r[i]| == |codes[i]| && IsLowercase(r[i])
  {
    seq(|codes|, i requires 0 <= i < |codes| => Downcase(codes[i]))
  }

  /** `language_codes` keeps length and order, turns each capital into
      the lower-case letter at the same place in the alphabet, changes
      nothing else, and is idempotent. */
  lemma LanguageCodesProperties(codes: seq<string>)
    ensures forall i, k :: 0 <= i < |codes| && 0 <= k < |codes[i]| && IsUpper(codes[i][k]) ==>
      LanguageCodes(codes)[i][k] == Lowercase[codes[i][k] as int - 'A' as int]
    ensures forall i, k :: 0 <= i < |codes| && 0 <= k < |codes[i]| && !IsUpper(codes[i][k]) ==>
      LanguageCodes(codes)[i][k] == codes[i][k]
    ensures LanguageCodes(LanguageCodes(codes)) == LanguageCodes(codes)
  {
    forall i | 0 <= i < |codes| {
      DowncaseProperties(codes[i]);
    }
  }

  // ---------------------------------------------------------------------
  // Rescaling time slots

  /** Every event's `time_slots` multiplied by `factor`, nothing else touched. */
  function Rescaled(evs: seq<Event>, factor: int): (r: seq<Event>)
    ensures |r| == |evs|
    ensures forall i :: 0 <= i < |r| ==>
      r[i].timeSlots == evs[i].timeSlots * factor && r[i].(timeSlots := evs[i].timeSlots) == evs[i]
  {
    seq(|evs|, i requires 0 <= i < |evs| => evs[i].(timeSlots := evs[i].timeSlots * factor))
  }

  /** An event lasts `time_slots * timeslot_duration` minutes. */
  function Minutes(e: Event, duration: int): int
  {
    e.timeSlots * duration
  }

  /** When the new duration divides the old one, rescaling keeps every
      event's length in minutes. */
  lemma RescaleKeepsMinutesWhenDivisible(evs: seq<Event>, durationWas: int, duration: int)
    requires duration > 0 && durationWas % duration == 0
    ensures forall i :: 0 <= i < |evs| ==>
      Minutes(Rescaled(evs, durationWas / duration)[i], duration) == Minutes(evs[i], durationWas)
  {
    var q := durationWas / duration;
    assert durationWas == q * duration;
    forall i | 0 <= i < |evs|
      ensures Minutes(Rescaled(evs, q)[i], duration) == Minutes(evs[i], durationWas)
    {
      var s := evs[i].timeSlots;
      calc {
        Minutes(Rescaled(evs, q)[i], duration);
        (s * q) * duration;
        { MulAssoc(s, q, duration); }
        s * (q * duration);
        s * durationWas;
      }
    }
  }

  lemma MulAssoc(a: int, b: int, c: int)
    ensures (a * b) * c == a * (b * c)
  {
  }

  /** The floored factor never lengthens an event: with positive durations
      and a non-negative slot count the new length is at most the old. */
  lemma RescaleNeverAddsMinutes(e: Event, durationWas: int, duration: int)
    requires duration > 0 && durationWas > 0 && e.timeSlots >= 0
    ensures Minutes(Rescaled([e], durationWas / duration)[0], duration) <= Minutes(e, durationWas)
  {
    var q := durationWas / duration;
    assert q * duration <= durationWas;
    MulAssoc(e.timeSlots, q, duration);
    MulMonotone(e.timeSlots, q * duration, durationWas);
  }

  lemma MulMonotone(a: int, b: int, c: int)
    requires a >= 0 && b <= c
    ensures a * b <= a * c
  {
  }

  /** As written, doubling the timeslot duration from 15 to 30 minutes gives
      the factor 0: a two-slot (30-minute) event ends up with no slots. */
  lemma FlooredFactorLosesMinutes(e: Event)
    requires e.timeSlots == 2
    ensures Rescaled([e], 15 / 30)[0].timeSlots == 0
    ensures Minutes(e, 15) == 30 && Minutes(Rescaled([e], 15 / 30)[0], 30) == 0
  {
  }

  /** The evidently intended new slot count: the old length in minutes
      divided by the new duration, rounded down, so the new length falls
      short of the old by less than one slot. */
  function ProportionalSlots(slots: int, durationWas: int, duration: int): (r: int)
    requires duration > 0
    ensures r * duration <= slots * durationWas < (r + 1) * duration
  {
    slots * durationWas / duration
  }

  /** Where the new duration divides the old one, the intended count and
      the one the source computes agree. */
  lemma ProportionalSlotsAgreesWhenDivisible(slots: int, durationWas: int, duration: int)
    requires duration > 0 && durationWas % duration == 0
    ensures ProportionalSlots(slots, durationWas, duration) == slots * (durationWas / duration)
  {
    var q := durationWas / duration;
    assert durationWas == q * duration;
    MulAssoc(slots, q, duration);
    var r := ProportionalSlots(slots, durationWas, duration);
    assert r * duration <= (slots * q) * duration < (r + 1) * duration;
    MulCancel(r, slots * q, duration);
  }

  lemma MulCancel(r: int, x: int, d: int)
    requires d > 0 && r * d <= x * d < (r + 1) * d
    ensures r == x
  {
    if x < r {
      MulMonotone(d, x + 1, r);
    } else if x > r {
      MulMonotone(d, r + 1, x);
    }
  }
}
