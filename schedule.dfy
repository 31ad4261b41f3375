/**
 * The monitor as a sequence of atomic steps on a logical clock: a log line
 * read by the main loop, or a session timer going off. Timer threads are
 * modelled as steps interleaved between lines; the webhook's answer to a
 * post is an input of the timer step (`delivered`) and never changes the
 * table.
 */
module Schedule {
  import opened Wrappers
  import opened LineParser
  import opened Sessions

  datatype Step =
    | Line(text: string, at: nat)
    | Timer(key: string, at: nat, delivered: bool)

  /** A payload handed to the webhook, and whether the post went through. */
  datatype Delivery = Delivery(report: Report, delivered: bool)

  /** One line of the log stream: ignored unless it matches, else upserted. */
  function Ingest(t: Table, line: string, now: nat): Table
  {
    match ParseLine(line)
    case None => t
    case Some(ev) => Upsert(t, ev, now)
  }

  function Apply(t: Table, step: Step): (Table, Option<Delivery>)
  {
    match step
    case Line(text, at) => (Ingest(t, text, at), None)
    case Timer(key, at, delivered) =>
      var (t', sent) := Fire(t, key, at);
      (t', if sent.Some? then Some(Delivery(sent.value, delivered)) else None)
  }

  /** The table after a schedule, and the payloads handed to the webhook on the way. */
  function Run(t: Table, steps: seq<Step>): (Table, seq<Delivery>)
    decreases |steps|
  {
    if steps == [] then (t, [])
    else
      var (t', out) := Run(t, steps[..|steps| - 1]);
      var (t'', sent) := Apply(t', steps[|steps| - 1]);
      (t'', out + if sent.Some? then [sent.value] else [])
  }

  /** A schedule one step longer: that step applied to the table the schedule leaves. */
  lemma RunSnoc(t: Table, steps: seq<Step>, step: Step)
    ensures var (t', out) := Run(t, steps);
      var (t'', sent) := Apply(t', step);
      Run(t, steps + [step]) == (t'', out + if sent.Some? then [sent.value] else [])
  {
    assert (steps + [step])[..|steps|] == steps;
  }

  /** A timer that is superseded or not yet due changes neither the table nor what was posted. */
  lemma NotDueTimerIgnored(t: Table, steps: seq<Step>, key: string, at: nat, delivered: bool)
    requires !Due(Run(t, steps).0, key, at)
    ensures Run(t, steps + [Timer(key, at, delivered)]) == Run(t, steps)
  {
    var (t', out) := Run(t, steps);
    RunSnoc(t, steps, Timer(key, at, delivered));
    assert Apply(t', Timer(key, at, delivered)) == (t', None);
    assert out + [] == out;
  }

  /** The event a step yields for one session key: a matching line's, if it is for that key. */
  function EventFor(step: Step, key: string): seq<Event>
  {
    match step
    case Timer(_, _, _) => []
    case Line(text, _) =>
      var parsed := ParseLine(text);
      if parsed.Some? && parsed.value.session == key then [parsed.value] else []
  }

  /** The events that the lines of a schedule yield for one session key, in order. */
  function EventsFor(steps: seq<Step>, key: string): seq<Event>
    decreases |steps|
  {
    if steps == [] then []
    else EventsFor(steps[..|steps| - 1], key) + EventFor(steps[|steps| - 1], key)
  }

  /** The messages of a sequence of events, in order. */
  function Messages(evs: seq<Event>): seq<string>
  {
    seq(|evs|, k requires 0 <= k < |evs| => evs[k].msg)
  }

  /** A line that is blank or does not match leaves the table as it was. */
  lemma UnmatchedLineIgnored(t: Table, line: string, now: nat)
    requires || (forall k | 0 <= k < |line| :: IsSpace(line[k]))
             || (forall j: nat, ev: Event | j <= |Strip(line)| :: !MatchesAt(Strip(line), j, ev))
    ensures Ingest(t, line, now) == t
  {
    if forall k | 0 <= k < |line| :: IsSpace(line[k]) {
      BlankLineSkipped(line);
    } else {
      ParseLineNone(line);
    }
  }

  lemma IngestKeepsWellFormed(t: Table, line: string, now: nat)
    requires WellFormed(t)
    ensures WellFormed(Ingest(t, line, now))
  {
    if ParseLine(line).Some? {
      ParsedEventValid(line);
      UpsertKeepsWellFormed(t, ParseLine(line).value, now);
    }
  }

  lemma ApplyKeepsWellFormed(t: Table, step: Step)
    requires WellFormed(t)
    ensures WellFormed(Apply(t, step).0)
  {
    match step
    case Line(text, at) => IngestKeepsWellFormed(t, text, at);
    case Timer(key, at, _) => FlushKeepsWellFormed(t, key);
  }

  /** Every record stays well formed over any schedule: non-empty log, one pending timer. */
  lemma {:induction false} RunKeepsWellFormed(t: Table, steps: seq<Step>)
    requires WellFormed(t)
    ensures WellFormed(Run(t, steps).0)
    decreases |steps|
  {
    if steps != [] {
      RunKeepsWellFormed(t, steps[..|steps| - 1]);
      ApplyKeepsWellFormed(Run(t, steps[..|steps| - 1]).0, steps[|steps| - 1]);
    }
  }

  /** The webhook's answer never changes the table. */
  lemma DeliveryOutcomeIrrelevant(t: Table, key: string, at: nat)
    ensures Apply(t, Timer(key, at, true)).0 == Apply(t, Timer(key, at, false)).0
  {
  }

  /** The step is a timer of `key` going off when the record's timer has expired, so it flushes the record. */
  predicate Flushes(t: Table, step: Step, key: string)
  {
    step.Timer? && step.key == key && Due(t, key, step.at)
  }

  /**
   * No step of the schedule flushes `key`: every timer of `key` in it is a
   * superseded or not-yet-due one, applied to the table the steps before it leave.
   */
  predicate NoFlushOf(t: Table, steps: seq<Step>, key: string)
    decreases |steps|
  {
    steps == []
    || (NoFlushOf(t, steps[..|steps| - 1], key)
        && !Flushes(Run(t, steps[..|steps| - 1]).0, steps[|steps| - 1], key))
  }

  /** The record of `key` holds the first event's address and all the events' messages. */
  predicate Accumulated(t: Table, key: string, evs: seq<Event>)
  {
    && (key in t <==> evs != [])
    && (evs != [] ==> t[key].ip == evs[0].ip && t[key].logs == Messages(evs))
  }

  /** One step that does not flush `key` extends the record of `key` by the step's event, if any. */
  lemma LifetimeStep(t: Table, step: Step, key: string, evs: seq<Event>)
    requires Accumulated(t, key, evs)
    requires !Flushes(t, step, key)
    ensures Accumulated(Apply(t, step).0, key, evs + EventFor(step, key))
    ensures Apply(t, step).1.Some? ==> Apply(t, step).1.value.report.session != key
  {
    match step
    case Line(text, at) =>
      var parsed := ParseLine(text);
      if parsed.Some? && parsed.value.session == key {
        assert Messages(evs + [parsed.value]) == Messages(evs) + [parsed.value.msg];
      } else {
        assert evs + EventFor(step, key) == evs;
      }
    case Timer(k, at, _) =>
      FlushSpec(t, k);
      assert evs + EventFor(step, key) == evs;
  }

  /**
   * One session lifetime: from a table without `key`, through any schedule
   * in which no timer of `key` goes off when due, the record of `key` exists exactly
   * when some line yielded an event for it; it holds the first such event's
   * address and the messages of all of them in arrival order; and no payload
   * for `key` has been handed to the webhook.
   */
  lemma {:induction false} Lifetime(t: Table, steps: seq<Step>, key: string)
    requires key !in t
    requires NoFlushOf(t, steps, key)
    ensures Accumulated(Run(t, steps).0, key, EventsFor(steps, key))
    ensures forall k | 0 <= k < |Run(t, steps).1| :: Run(t, steps).1[k].report.session != key
    decreases |steps|
  {
    if steps != [] {
      var init := steps[..|steps| - 1];
      Lifetime(t, init, key);
      LifetimeStep(Run(t, init).0, steps[|steps| - 1], key, EventsFor(init, key));
    }
  }

  /**
   * The report of one lifetime: when the timer of `key` goes off at or after
   * its deadline, the record is removed and a single payload goes to the
   * webhook, with the first event's address, the key, the number of events
   * and their messages joined by newlines.
   */
  lemma LifetimeReport(t: Table, steps: seq<Step>, key: string, at: nat, delivered: bool)
    requires key !in t && WellFormed(t)
    requires NoFlushOf(t, steps, key)
    requires Due(Run(t, steps).0, key, at)
    ensures EventsFor(steps, key) != []
    ensures var evs := EventsFor(steps, key);
      var (r, out) := Run(t, steps + [Timer(key, at, delivered)]);
      && evs != []
      && key !in r
      && out == Run(t, steps).1
        + [Delivery(Report(evs[0].ip, key, |evs|, Join(Messages(evs))), delivered)]
  {
    Lifetime(t, steps, key);
    RunKeepsWellFormed(t, steps);
    var all := steps + [Timer(key, at, delivered)];
    assert all[..|all| - 1] == steps;
  }
}
