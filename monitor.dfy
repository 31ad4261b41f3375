/**
 * The running monitor: the global `sessions` dict that the line loop of
 * `watch_logs` and the timer threads update in place, and the payloads
 * handed to the webhook. Each line and each timer going off is one atomic
 * step; the methods are proved against the functions of `Sessions` and
 * `Schedule`.
 */
module Monitor {
  import opened Wrappers
  import opened LineParser
  import opened Sessions
  import opened Schedule

  class Monitor {
    /** The global `sessions` dict, keyed by session id. */
    var sessions: Table
    /** Every payload posted to the webhook, with whether the post went through. */
    var outbox: seq<Delivery>

    ghost predicate Valid()
      reads this
    {
      WellFormed(sessions)
    }

    constructor ()
      ensures Valid() && sessions == map[] && outbox == []
    {
      sessions := map[];
      outbox := [];
    }

    /**
     * The body of the line loop of `watch_logs`: strip the line, skip it when
     * blank, search it for an event and skip it when there is none, else
     * record the event.
     */
    method ProcessLine(line: string, now: nat)
      requires Valid()
      modifies this
      ensures Valid()
      ensures sessions == Ingest(old(sessions), line, now)
      ensures ParseLine(line).None? ==> sessions == old(sessions)
      ensures outbox == old(outbox)
    {
      var stripped := Strip(line);
      if stripped == [] {
        assert ParseLine(line).None?;
        return;
      }
      var found := Search(stripped);
      assert found == ParseLine(line);
      if found.None? {
        return;
      }
      ParsedEventValid(line);
      RecordEvent(found.value, now);
    }

    /**
     * One matched event: create the record on the session's first event,
     * append the message, cancel the pending timer and arm a new one.
     */
    method RecordEvent(ev: Event, now: nat)
      modifies this
      ensures sessions == Upsert(old(sessions), ev, now)
      ensures outbox == old(outbox)
      ensures old(Valid()) && ValidEvent(ev) ==> Valid()
    {
      if ev.session !in sessions {
        sessions := sessions[ev.session := Session(ev.ip, [], None)];
      }
      var rec := sessions[ev.session];
      rec := rec.(logs := rec.logs + [ev.msg]);
      if rec.deadline.Some? {
        // cancel the pending timer
        rec := rec.(deadline := None);
      }
      rec := rec.(deadline := Some(now + QuietPeriod));
      sessions := sessions[ev.session := rec];
      if old(Valid()) && ValidEvent(ev) {
        UpsertKeepsWellFormed(old(sessions), ev, now);
      }
    }

    /**
     * `send_to_n8n(key)`: nothing when the key is absent; otherwise post the
     * payload when the record has messages, then delete the record whether
     * the post went through (`delivered`) or not.
     */
    method SendReport(key: string, delivered: bool) returns (sent: Option<Report>)
      modifies this
      ensures (sessions, sent) == Flush(old(sessions), key)
      ensures key !in sessions
      ensures forall k | k in old(sessions) && k != key :: k in sessions && sessions[k] == old(sessions)[k]
      ensures key !in old(sessions) ==> sent.None? && sessions == old(sessions)
      ensures outbox == old(outbox) + if sent.Some? then [Delivery(sent.value, delivered)] else []
      ensures old(Valid()) ==> Valid()
    {
      sent := None;
      if key in sessions {
        var data := sessions[key];
        if |data.logs| > 0 {
          sent := Some(Report(data.ip, key, |data.logs|, Join(data.logs)));
          outbox := outbox + [Delivery(sent.value, delivered)];
        }
        sessions := sessions - {key};
      }
    }

    /** The timer of `key` goes off at `now`: it flushes only if it is the pending one and has expired. */
    method TimerFires(key: string, now: nat, delivered: bool) returns (sent: Option<Report>)
      modifies this
      ensures (sessions, sent) == Fire(old(sessions), key, now)
      ensures !Due(old(sessions), key, now) ==> sessions == old(sessions) && sent.None?
      ensures outbox == old(outbox) + if sent.Some? then [Delivery(sent.value, delivered)] else []
      ensures old(Valid()) ==> Valid()
    {
      if key in sessions && sessions[key].deadline.Some? && sessions[key].deadline.value <= now {
        sent := SendReport(key, delivered);
      } else {
        sent := None;
      }
    }

    /** One step of the world: a line read from the stream, or a timer going off. */
    method Handle(step: Step)
      requires Valid()
      modifies this
      ensures Valid()
      ensures var (t, sent) := Apply(old(sessions), step);
        sessions == t && outbox == old(outbox) + if sent.Some? then [sent.value] else []
    {
      match step {
        case Line(text, at) =>
          ProcessLine(text, at);
        case Timer(key, at, delivered) =>
          var _ := TimerFires(key, at, delivered);
      }
    }

    /**
     * `watch_logs` together with the timer threads: the lines of the stream
     * and the timers going off, in the order the schedule interleaves them.
     */
    method WatchLogs(schedule: seq<Step>)
      requires Valid()
      modifies this
      ensures Valid()
      ensures sessions == Run(old(sessions), schedule).0
      ensures outbox == old(outbox) + Run(old(sessions), schedule).1
    {
      var i := 0;
      while i < |schedule|
        invariant 0 <= i <= |schedule|
        invariant Valid()
        invariant sessions == Run(old(sessions), schedule[..i]).0
        invariant outbox == old(outbox) + Run(old(sessions), schedule[..i]).1
      {
        Handle(schedule[i]);
        RunSnoc(old(sessions), schedule[..i], schedule[i]);
        assert schedule[..i] + [schedule[i]] == schedule[..i + 1];
        i := i + 1;
      }
      assert schedule[..|schedule|] == schedule;
    }
  }
}
