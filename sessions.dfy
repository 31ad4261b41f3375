/**
 * The in-memory session table of the log monitor and the report that
 * `send_to_n8n` builds from one of its records.
 *
 * A record keeps the address of the session's first event, the messages of
 * all its events in arrival order, and its pending flush timer. The timer is
 * modelled as a deadline on a logical clock: re-arming it replaces the old
 * deadline, so a record never has more than one pending timer.
 */
module Sessions {
  import opened Wrappers
  import opened LineParser

  /** Quiet time, in seconds, after a session's last event before it is reported. */
  const QuietPeriod: nat := 120

  datatype Session = Session(ip: string, logs: seq<string>, deadline: Option<nat>)

  type Table = map<string, Session>

  /** The JSON payload posted to the webhook: `ip`, `session`, `event_count`, `full_logs`. */
  datatype Report = Report(ip: string, session: string, eventCount: nat, fullLogs: string)

  /** What every record in the table looks like once a line has been processed. */
  predicate SessionOk(key: string, s: Session)
  {
    && IsSessionId(key)
    && IsAddress(s.ip)
    && s.logs != []
    && s.deadline.Some?
    && forall k | 0 <= k < |s.logs| :: IsMessage(s.logs[k])
  }

  predicate WellFormed(t: Table)
  {
    forall key | key in t :: SessionOk(key, t[key])
  }

  /**
   * One matched event: create the record on the first event for its session
   * (with that event's address, no messages and no timer), append the message,
   * then cancel any pending timer and arm a fresh one.
   */
  function Upsert(t: Table, ev: Event, now: nat): (r: Table)
    ensures r.Keys == t.Keys + {ev.session}
    ensures forall key | key in t && key != ev.session :: r[key] == t[key]
    ensures ev.session in t ==>
      r[ev.session].ip == t[ev.session].ip && r[ev.session].logs == t[ev.session].logs + [ev.msg]
    ensures ev.session !in t ==> r[ev.session].ip == ev.ip && r[ev.session].logs == [ev.msg]
    ensures r[ev.session].deadline == Some(now + QuietPeriod)
  {
    var s := if ev.session in t then t[ev.session] else Session(ev.ip, [], None);
    t[ev.session := Session(s.ip, s.logs + [ev.msg], Some(now + QuietPeriod))]
  }

  /** `"\n".join(logs)`. */
  function Join(logs: seq<string>): string
  {
    if |logs| == 0 then ""
    else if |logs| == 1 then logs[0]
    else logs[0] + "\n" + Join(logs[1..])
  }

  /** The number of newline characters in `s`. */
  function Newlines(s: string): nat
  {
    multiset(s)['\n']
  }

  /** `s.split("\n")`: the pieces between newlines; one more piece than there are newlines. */
  function Split(s: string): (r: seq<string>)
    ensures |r| == Newlines(s) + 1
  {
    if s == [] then [""]
    else
      assert s == [s[0]] + s[1..];
      var rest := Split(s[1..]);
      if s[0] == '\n' then [""] + rest
      else [[s[0]] + rest[0]] + rest[1..]
  }

  /** A text without newlines is a single piece. */
  lemma {:induction false} SplitOnePiece(a: string)
    requires '\n' !in a
    ensures Split(a) == [a]
  {
    if a != [] {
      assert '\n' !in a[1..] by {
        forall c | c in a[1..] ensures c != '\n' { assert c in a; }
      }
      SplitOnePiece(a[1..]);
      assert [a[0]] + a[1..] == a;
    }
  }

  /** Splitting at the first newline takes off the newline-free piece in front of it. */
  lemma {:induction false} SplitAfterPiece(a: string, rest: string)
    requires '\n' !in a
    ensures Split(a + "\n" + rest) == [a] + Split(rest)
  {
    var s := a + "\n" + rest;
    if a == [] {
      assert s[0] == '\n' && s[1..] == rest;
    } else {
      assert s[0] == a[0] && s[1..] == a[1..] + "\n" + rest;
      assert '\n' !in a[1..] by {
        forall c | c in a[1..] ensures c != '\n' { assert c in a; }
      }
      SplitAfterPiece(a[1..], rest);
      assert [a[0]] + a[1..] == a;
    }
  }

  /** Splitting the joined log at its newlines gives back the log, when no message holds a newline. */
  lemma {:induction false} SplitJoin(logs: seq<string>)
    requires logs != []
    requires forall k | 0 <= k < |logs| :: '\n' !in logs[k]
    ensures Split(Join(logs)) == logs
  {
    if |logs| == 1 {
      SplitOnePiece(logs[0]);
    } else {
      SplitJoin(logs[1..]);
      SplitAfterPiece(logs[0], Join(logs[1..]));
      assert [logs[0]] + logs[1..] == logs;
    }
  }

  /** The joined log holds exactly one newline fewer than there are messages. */
  lemma JoinNewlines(logs: seq<string>)
    requires logs != []
    requires forall k | 0 <= k < |logs| :: '\n' !in logs[k]
    ensures Newlines(Join(logs)) == |logs| - 1
  {
    SplitJoin(logs);
  }

  /** The payload for a record; none when the record holds no message. */
  function BuildReport(key: string, s: Session): Option<Report>
  {
    if |s.logs| > 0 then Some(Report(s.ip, key, |s.logs|, Join(s.logs))) else None
  }

  /**
   * The payload carries the record's first address and its key, counts its
   * messages, and its log splits back into exactly those messages, with one
   * newline fewer than the count.
   */
  lemma ReportFaithful(key: string, s: Session)
    requires forall k | 0 <= k < |s.logs| :: '\n' !in s.logs[k]
    ensures BuildReport(key, s).Some? <==> s.logs != []
    ensures BuildReport(key, s).Some? ==>
      var r := BuildReport(key, s).value;
      && r.ip == s.ip && r.session == key && r.eventCount == |s.logs|
      && Split(r.fullLogs) == s.logs && Newlines(r.fullLogs) == r.eventCount - 1
  {
    if s.logs != [] {
      SplitJoin(s.logs);
      JoinNewlines(s.logs);
    }
  }

  /**
   * `send_to_n8n(key)`: a no-op when the key is absent; otherwise build the
   * payload (when there are messages) and delete the record, whatever then
   * happens to the payload.
   */
  function Flush(t: Table, key: string): (Table, Option<Report>)
  {
    if key in t then (t - {key}, BuildReport(key, t[key])) else (t, None)
  }

  /** The record's timer has expired at time `now`. */
  predicate Due(t: Table, key: string, now: nat)
  {
    key in t && t[key].deadline.Some? && t[key].deadline.value <= now
  }

  /** A timer of `key` goes off at `now`: only the pending, expired one flushes. */
  function Fire(t: Table, key: string, now: nat): (Table, Option<Report>)
  {
    if Due(t, key, now) then Flush(t, key) else (t, None)
  }

  /** Flushing removes exactly the flushed key and reports only on it; an absent key changes nothing. */
  lemma FlushSpec(t: Table, key: string)
    ensures Flush(t, key).0.Keys == t.Keys - {key}
    ensures forall k | k in Flush(t, key).0 :: Flush(t, key).0[k] == t[k]
    ensures key !in t ==> Flush(t, key) == (t, None)
    ensures Flush(t, key).1.Some? ==> key in t && Flush(t, key).1.value.session == key
    ensures WellFormed(t) && key in t ==> Flush(t, key).1.Some?
  {
  }

  /** A second flush of the same key is a no-op: one report per record at most. */
  lemma FlushTwice(t: Table, key: string)
    ensures var t1 := Flush(t, key).0; Flush(t1, key) == (t1, None)
  {
  }

  /** Flushing keeps every remaining record well formed. */
  lemma FlushKeepsWellFormed(t: Table, key: string)
    requires WellFormed(t)
    ensures WellFormed(Flush(t, key).0)
  {
  }

  /** An event for a flushed key starts a fresh record: its own address and one message. */
  lemma EventAfterFlush(t: Table, ev: Event, now: nat)
    ensures var r := Upsert(Flush(t, ev.session).0, ev, now);
      r[ev.session] == Session(ev.ip, [ev.msg], Some(now + QuietPeriod))
    ensures BuildReport(ev.session, Upsert(Flush(t, ev.session).0, ev, now)[ev.session]).value.eventCount == 1
  {
  }

  /** A matched event keeps the table well formed. */
  lemma UpsertKeepsWellFormed(t: Table, ev: Event, now: nat)
    requires WellFormed(t) && ValidEvent(ev)
    ensures WellFormed(Upsert(t, ev, now))
  {
    var r := Upsert(t, ev, now);
    var s := r[ev.session];
    forall k | 0 <= k < |s.logs| ensures IsMessage(s.logs[k]) {
      if k < |s.logs| - 1 {
        assert ev.session in t && s.logs[k] == t[ev.session].logs[k];
      }
    }
  }

  /**
   * Debounce: after an event at `now`, the session's timer does nothing before
   * `now + QuietPeriod`, and from then on flushes the record with every message
   * it has collected.
   */
  lemma Debounce(t: Table, ev: Event, now: nat, later: nat)
    ensures var t1 := Upsert(t, ev, now);
      later < now + QuietPeriod ==> Fire(t1, ev.session, later) == (t1, None)
    ensures var t1 := Upsert(t, ev, now);
      later >= now + QuietPeriod ==>
        Fire(t1, ev.session, later) == (t1 - {ev.session}, BuildReport(ev.session, t1[ev.session]))
        && BuildReport(ev.session, t1[ev.session]).Some?
  {
  }

  /** A timer of one key leaves every other record as it was. */
  lemma FireOnlyOnKey(t: Table, key: string, now: nat, other: string)
    requires other != key && other in t
    ensures other in Fire(t, key, now).0 && Fire(t, key, now).0[other] == t[other]
  {
  }
}
