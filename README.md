# Honeypot log monitor: session aggregation

A model in Dafny of the session aggregation core of `src/log-monitor.py`. The
monitor follows the log stream of an SSH honeypot container, picks out the
lines of the honeypot's SSH transport, groups their messages by honeypot
session, and posts one summary per session to an n8n webhook once the session
has been quiet for 120 seconds.

The model has five modules:

- `Wrappers` (`wrappers.dfy`): the `Option` type.
- `LineParser` (`line_parser.dfy`): the handling of one line as pure functions.
  `Strip` is `str.strip()`. `MatchAt`, `Search` and `ParseLine` are a leftmost
  `re.search` for `\[HoneyPotSSHTransport,(\d+),([\d.]+)\]\s+(.*)`, taken group
  by group. `MatchesWith` is an independent reading of the pattern, and
  `MatchAt` is proved equal to it. `Render` writes a line of the shape the
  pattern expects (the bracketed tag, one space, the message), and the round
  trip through `ParseLine` is proved for such a line after any prefix without
  `[`, when the message does not end with whitespace (`strip()` would remove it).
- `Sessions` (`sessions.dfy`): the session table as a value. It defines the
  upsert of one event (`Upsert`) and `send_to_n8n` (`Flush`) with its payload
  (`BuildReport`). It also defines the timer as a deadline on a logical clock:
  `Fire` flushes only through the pending, expired timer. `Split` is a
  reference definition of splitting at newlines, used to prove that the
  payload's `full_logs` gives back the messages.
- `Schedule` (`schedule.dfy`): an interleaving of lines and timers as a
  sequence of steps. `Run` folds the table over the steps and collects the
  payloads handed to the webhook. The lemmas follow one session lifetime from
  its first event to its report.
- `Monitor` (`monitor.dfy`): the `Monitor` class. It holds the global
  `sessions` dict as a `map` field and the posted payloads as a `seq` field.
  Its methods update them step by step as the script does, and each is proved
  against the functions above.

The whitespace that `strip()` and `\s` remove is Python's `str.isspace` set,
Unicode included. `\d` is taken as the ASCII digits.

## Model

| member | source | states |
|---|---|---|
| LineParser.Span | src/log-monitor.py:66 | a greedy run of `\d+`, `[\d.]+`, `\s+` or `.*` ends at the first character outside its class, and every character it covers is in the class |
| LineParser.Strip | src/log-monitor.py:62 | `line.strip()`: removes Python whitespace from both ends; characterised by `StripSpec` |
| LineParser.StripSpec | src/log-monitor.py:62 | `strip()` removes only whitespace, all of it at both ends; what remains is empty exactly when the line is all whitespace |
| LineParser.BlankLineSkipped | src/log-monitor.py:62-63 | an empty or all-whitespace line yields no event |
| LineParser.MatchAt | src/log-monitor.py:66 | one attempt of the pattern at one start position, group by group (`SessionFrom`, `AddressFrom`, `MessageFrom`); characterised by `MatchAtIff` and `MatchAtValid` |
| LineParser.MatchAtIff | src/log-monitor.py:66 | the attempt at one position yields `ev` exactly when the text there is the tag, the session digits, a comma, the address, `]`, a maximal whitespace run and a message running to the newline or the end |
| LineParser.FirstSome | src/log-monitor.py:66 | the selection yields nothing only when every attempt fails; otherwise it yields the attempt at the first position that matches |
| LineParser.Search | src/log-monitor.py:66 | `re.search`: the first attempt that matches, trying start positions left to right; characterised by `SearchSound` and `FirstSome` |
| LineParser.SearchSound | src/log-monitor.py:66 | what `re.search` finds matches the pattern, and no match starts earlier |
| LineParser.ParseLine | src/log-monitor.py:61-71 | one line of the stream: stripped, skipped when blank, else searched; characterised by `ParseLineSound`, `ParseLineComplete`, `ParseLineNone` and `ParsedEventValid` |
| LineParser.ParseLineSound | src/log-monitor.py:61-71 | the groups a line yields are the leftmost match of the pattern in the stripped line |
| LineParser.ParseLineComplete | src/log-monitor.py:61-71 | a match with no match before it in a non-blank stripped line is what the line yields |
| LineParser.ParseLineNone | src/log-monitor.py:62-68 | a line yields nothing exactly when it is blank after stripping or no position of it matches |
| LineParser.ParsedEventValid | src/log-monitor.py:69-71 | group 1 is non-empty digits, group 2 is non-empty digits and dots, and group 3 is a non-empty message with no newline that starts with a non-space character |
| LineParser.RenderParses | src/log-monitor.py:62-71 | a well-formed event whose message does not end with whitespace, written after any prefix without `[`, parses back to itself |
| LineParser.StripRendered | src/log-monitor.py:62 | stripping such a line leaves a suffix of the prefix followed by the whole rendered event; the part of the prefix it drops is all whitespace, and what is left of the prefix is empty or starts with a non-space character |
| Sessions.Upsert | src/log-monitor.py:73-87 | the session key is added and other records are untouched; the first event's address is kept; the message is appended; the timer is re-armed to `now + 120` |
| Sessions.UpsertKeepsWellFormed | src/log-monitor.py:73-87 | after an event every record has a valid key and address, a non-empty log of well-formed messages and exactly one pending timer |
| Sessions.Join | src/log-monitor.py:35 | `"\n".join(logs)`; characterised by `SplitJoin` and `JoinNewlines` |
| Sessions.Split | src/log-monitor.py:35 | splitting at newlines yields one piece more than there are newlines |
| Sessions.SplitJoin | src/log-monitor.py:35 | splitting `"\n".join(logs)` at its newlines gives back `logs` when no message holds a newline |
| Sessions.JoinNewlines | src/log-monitor.py:35 | for a non-empty log of newline-free messages, `"\n".join(logs)` holds exactly `len(logs) - 1` newlines |
| Sessions.BuildReport | src/log-monitor.py:29-36 | the payload of a record, none when it has no messages; characterised by `ReportFaithful` |
| Sessions.ReportFaithful | src/log-monitor.py:29-36 | for a record of newline-free messages, a payload is built exactly when the record has messages; it carries the record's address and key, `event_count = len(logs)`, and `full_logs` that splits back into the messages |
| Sessions.Flush | src/log-monitor.py:26-42 | `send_to_n8n(session_id)`: the payload, if any, and the table without the key; characterised by `FlushSpec`, `FlushTwice`, `FlushKeepsWellFormed` and `ReportFaithful` |
| Sessions.Fire | src/log-monitor.py:85-87 | a session timer going off: it flushes only when it is the record's pending timer and its deadline has passed; characterised by `Debounce` and `FireOnlyOnKey` |
| Sessions.FlushSpec | src/log-monitor.py:26-42 | the flushed key is removed and every other record is kept as it was; an absent key changes nothing; a payload is about the flushed key and exists for every well-formed record |
| Sessions.FlushTwice | src/log-monitor.py:26-42 | a second flush of the same key is a no-op, so a record is reported at most once |
| Sessions.FlushKeepsWellFormed | src/log-monitor.py:42 | deleting a record keeps the others well formed |
| Sessions.EventAfterFlush | src/log-monitor.py:73-78 | an event for a flushed key starts a fresh record with its own address and a single message |
| Sessions.Debounce | src/log-monitor.py:80-87 | after an event at `now` the session's timer does nothing before `now + 120`, and from then on flushes the record with all its messages |
| Sessions.FireOnlyOnKey | src/log-monitor.py:85 | a timer going off leaves every other session's record as it was |
| Schedule.Ingest | src/log-monitor.py:61-87 | the loop body for one line: parse it and upsert the event, if any; characterised by `UnmatchedLineIgnored` and `IngestKeepsWellFormed` |
| Schedule.Apply | src/log-monitor.py:26-87 | one step: a line read by the loop, or a timer going off with the post's outcome; characterised by `ApplyKeepsWellFormed` and `DeliveryOutcomeIrrelevant` |
| Schedule.Run | src/log-monitor.py:61-87 | the table and posted payloads after a whole interleaving of lines and timers; characterised by `RunKeepsWellFormed`, `Lifetime`, `LifetimeReport` and `NotDueTimerIgnored` |
| Schedule.UnmatchedLineIgnored | src/log-monitor.py:62-68 | a line that is all whitespace, or where no position of the stripped line matches the pattern, leaves the table unchanged |
| Schedule.IngestKeepsWellFormed | src/log-monitor.py:61-87 | processing any line keeps the table well formed |
| Schedule.ApplyKeepsWellFormed | src/log-monitor.py:26-42 | a line or a timer going off keeps the table well formed |
| Schedule.RunKeepsWellFormed | src/log-monitor.py:61-87 | every record stays well formed over any interleaving of lines and timers |
| Schedule.DeliveryOutcomeIrrelevant | src/log-monitor.py:30-42 | whether the post succeeds or raises, the table afterwards is the same |
| Schedule.NotDueTimerIgnored | src/log-monitor.py:81-87 | a timer of a key that is superseded or not yet due changes neither the table nor the posted payloads |
| Schedule.LifetimeStep | src/log-monitor.py:73-78 | a step that does not flush the key extends the key's record by that step's event, if any, and reports nothing for the key |
| Schedule.Lifetime | src/log-monitor.py:73-78 | until a timer of the key goes off when due (superseded and early timers may occur), a key's record exists exactly when an event for it arrived; it holds the first event's address and every message in arrival order, and nothing has been reported for it |
| Schedule.LifetimeReport | src/log-monitor.py:26-42 | when the key's expired timer goes off, the record is removed and exactly one payload is added for it: the first address, the key, the event count and the messages joined by newlines |
| Monitor.Monitor.constructor | src/log-monitor.py:24 | the monitor starts with no sessions and nothing posted |
| Monitor.Monitor.ProcessLine | src/log-monitor.py:61-87 | one line of the stream updates the table as `Ingest` does, keeps it well formed, and posts nothing |
| Monitor.Monitor.RecordEvent | src/log-monitor.py:73-87 | the in-place creation, append, cancel and re-arm leave the table that `Upsert` describes |
| Monitor.Monitor.SendReport | src/log-monitor.py:26-42 | `send_to_n8n` leaves the table and payload that `Flush` describes; the key is gone, others are kept, and the payload is posted with the post's outcome |
| Monitor.Monitor.TimerFires | src/log-monitor.py:85-87 | a timer going off flushes only when it is the key's pending, expired timer; otherwise nothing changes |
| Monitor.Monitor.Handle | src/log-monitor.py:61-87 | one line or one timer changes the table and the posted payloads as `Apply` describes |
| Monitor.Monitor.WatchLogs | src/log-monitor.py:44-87 | processing a whole interleaving of lines and timers ends in the table and payloads that `Run` describes, and keeps the table well formed |

## Left out

- Reading the stream is not modelled: the `docker logs` subprocess, its startup error and the iteration over its output. Each line is a parameter of `ProcessLine` and of the `Line` steps.
- The `.env` loading, the missing-URL check and `sys.exit` are not modelled; they run before the core.
- The `print` calls are not modelled; they have no effect on the state.
- The HTTP post is not modelled. Its success or its exception is the `delivered` flag recorded with each payload, since the script deletes the record either way.
- Threads are not modelled. Each line and each timer going off is one atomic step, and a schedule fixes their interleaving. Races between the line loop and a timer thread running at the same time are not represented.
- Sessions.Flush: the post and the delete are one atomic step, so the model cannot show what the script loses when they are apart. `send_to_n8n` posts first (line 38, with `timeout=10`, which bounds each connect or read wait, not the whole post) and deletes only afterwards (line 42). A line for that session read during the post is appended to the record and arms a new timer; the delete then drops that message, and it is never reported.
- Wall-clock time is not modelled. Times are natural numbers of seconds passed in as parameters, and a timer is its deadline: a timer step before the deadline stands for a superseded or not-yet-due timer and does nothing.
- Schedule.Run: schedules are unconstrained. Times need not increase, and nothing forces a due timer to go off before a later line. So `Run` also covers runs the script cannot produce: `[Line(l, 0), Line(l2, 500), Timer(k, 1000, true)]`, with `l` and `l2` lines of session `k`, posts one payload with two events, where the script's timer would fire at 120 and post two payloads of one event each. The lemmas hold for every schedule, but the model does not state that a session quiet for 120 seconds is reported exactly once before its next event.
- LineParser.IsDigit: `\d` in a Python `str` pattern also matches non-ASCII decimal digits; the model accepts only `0`-`9`.
