# ical-filter, modelled in Dafny

ical-filter fetches an iCalendar document, drops the events that match
blacklist rules, optionally drops duplicate events, and serves a rebuilt,
minimal calendar. This project models the core of one run — the body of
`filter_ical` from the point where the calendar has been parsed to the point
where the output calendar is ready to be written — and proves what it does:

- **Rule compilation** (`Rules`): each `FIELD=PATTERN` argument is split on
  its first `=`; a rule without `=`, or whose pattern does not compile, is
  skipped with a diagnostic; valid patterns accumulate per field, in order.
- **Event filter** (`EventFilter`): an event is kept when no property whose
  name has patterns has a text (its value, or `""` when it has none) that
  one of those patterns matches.
- **Deduplication** (`Dedup`): `unique_by` on the key (DTSTART, DTEND,
  SUMMARY), each looked up in the event's name-to-value map; the first event
  of each key is kept.
- **Recomposition** (`Pipeline`, `Ics`): the calendar's VERSION and PRODID
  must exist with values, or the run fails; the output calendar has exactly
  those two properties, and each kept event with UID and DTSTAMP becomes one
  output event: UID, DTSTAMP, then all its properties. An event without UID
  or DTSTAMP is only reported.
- **Lookups** (`Ical`): every hash map built by collecting (name, value)
  pairs is modelled as `Ical.Collect`, in which the last property with a
  name wins.

The regular-expression engine is a parameter (`Regex.Engine`): which
patterns compile, the error text of those that do not, and whether a pattern
matches inside a text. Printed lines are returned as a `log` list.

The model follows the code in these details:

- Only the first calendar of the document is processed; an empty document
  fails with "No calendar found".
- VERSION and PRODID are checked after the rules are compiled and the events
  filtered and deduplicated, so "Deduping events" is logged even when the run
  then fails. A VERSION or PRODID with an empty value is accepted; only a
  missing value fails.
- A UID or DTSTAMP present without a value is accepted and written as `""`.
- Output properties keep name and text but lose their parameters, and UID
  and DTSTAMP appear twice: once from the event's creation and once among the
  copied properties. Alarms of events and all components other than events
  are not copied.

## Model

| member | source | states |
|---|---|---|
| Ical.CollectSpec | src/main.rs:81-85 | the collected name-to-value map has exactly the property names as keys, each bound to the value of its last occurrence |
| Ical.LookupSpec | src/main.rs:88-90 | looking a name up gives `None` exactly when no property has it, else `Some` of the last one's (optional) value |
| Rules.SplitRule | src/main.rs:41-47 | no result exactly when the rule has no `=`; otherwise field + "=" + pattern is the rule and the field holds no `=` |
| Rules.SplitJoin | src/main.rs:41-42 | splitting `field=pattern` with `=`-free field gives back that field and pattern, whatever `=` the pattern holds |
| Rules.ParseRule | src/main.rs:41-55 | a rule without `=` gives the "Invalid blacklist rule" diagnostic; an accepted rule splits back into the input and its pattern compiles |
| Rules.ParseRuleJoin | src/main.rs:49-55 | a well-formed rule is accepted exactly when its pattern compiles |
| Rules.RuleMapSpec | src/main.rs:57-61 | a field is a key of the blacklist map exactly when an accepted rule names it, and its list is those rules' patterns in order |
| Rules.MalformedRuleSkipped | src/main.rs:41-47 | appending a rule without `=` leaves the map unchanged and adds one "Invalid blacklist rule" diagnostic |
| Rules.BadPatternSkipped | src/main.rs:49-55 | appending a rule whose pattern does not compile leaves the map unchanged and adds one "Invalid blacklist regex" diagnostic |
| Rules.ValidRuleAccumulates | src/main.rs:57-61 | a valid rule appends its pattern after its field's earlier patterns (duplicates kept) and leaves other fields and the diagnostics alone |
| Rules.NoDiagnosticsIffAllAccepted | src/main.rs:40-55 | there is no diagnostic exactly when every rule string is accepted |
| Rules.CompileRules | src/main.rs:39-62 | the map built in place by the rule loop is the specified blacklist map, has no empty list, and the log is the rule diagnostics |
| EventFilter.NoneMatch | src/main.rs:69-71 | true exactly when no pattern of the list matches the text |
| EventFilter.AllPassSpec | src/main.rs:67-75 | the properties pass exactly when no property with a listed name has a text matched by one of that name's patterns |
| EventFilter.RejectIff | src/main.rs:66-76 | an event is rejected exactly when some property has a listed name and a text (`""` without value) matched by one of its patterns |
| EventFilter.FilterMembers | src/main.rs:66-76 | every filtered event is an accepted input event, and every accepted input event is kept |
| EventFilter.FilterSubseq | src/main.rs:66-76 | the filtered events are an order-preserving subsequence of the input |
| EventFilter.FilterAppend | src/main.rs:66-76 | filtering a concatenation filters each part: one event's fate never depends on another |
| EventFilter.FilterKeepsAll | src/main.rs:66-76 | when every event is accepted the filter returns its input unchanged |
| EventFilter.EmptyBlacklistKeepsAll | src/main.rs:68-74 | with an empty blacklist every event is kept |
| Dedup.MissingDiffersFromEmpty | src/main.rs:81-91 | for each of DTSTART, DTEND and SUMMARY, an event without that property (component `None`) and one whose last such property has no value (component `Some(None)`) have different keys |
| Dedup.KeyUsesLastOccurrence | src/main.rs:81-91 | each of the key's DTSTART, DTEND and SUMMARY components is the value of the last property with that name |
| Dedup.UniqueBySubseq | src/main.rs:80-92 | `unique_by` keeps an order-preserving subsequence |
| Dedup.UniqueByDistinct | src/main.rs:80-92 | no two kept elements share a key and none has a key already seen |
| Dedup.UniqueByOnlyFirsts | src/main.rs:80-92 | each kept element is an input element that is the first with its key |
| Dedup.UniqueBySnoc | src/main.rs:80-92 | appending an element appends it to the result exactly when no earlier element and no seen key has its key, which fixes the result and its order |
| Dedup.UniqueByKeepsFirsts | src/main.rs:80-92 | the first element of every key not already seen is kept |
| Dedup.DedupSpec | src/main.rs:77-96 | deduplication keeps a subsequence of the events with pairwise distinct (DTSTART, DTEND, SUMMARY) keys, each a first occurrence of its key, and keeps the first event of every key |
| Dedup.DedupSnoc | src/main.rs:80-92 | deduplicating events followed by one more event gives the deduplicated events, followed by that event exactly when no earlier event has its key: the kept events are the first of each key, in input order |
| Pipeline.Selected | src/main.rs:66-96 | the events reaching recomposition are an order-preserving subsequence of the calendar's events, all accepted by the filter |
| Pipeline.HeaderValueSpec | src/main.rs:98-113 | VERSION/PRODID is the value of the last property with that name, `None` when missing or without value |
| Pipeline.FieldTextSpec | src/main.rs:120-134 | UID/DTSTAMP is `None` only when missing; otherwise the last occurrence's text, `""` without value |
| Pipeline.OutProps | src/main.rs:137-142 | the written properties are the event's properties one for one, in order, absent values as `""` |
| Pipeline.OutputEventErrors | src/main.rs:126-135 | an event fails exactly when UID or DTSTAMP is missing, with the UID error first |
| Pipeline.OutputEventContents | src/main.rs:126-142 | an output event is the last UID, the last DTSTAMP, then every original property in order |
| Pipeline.PartitionAppend | src/main.rs:117-148 | the successes and failures of a concatenation are those of its parts |
| Pipeline.PartitionCounts | src/main.rs:117-148 | each element gives exactly one success or one failure |
| Pipeline.PartitionAllOk | src/main.rs:117-148 | when all succeed, the i-th success is the i-th element's and there is no failure |
| Pipeline.PartitionSources | src/main.rs:117-148 | every success and every failure comes from some element |
| Pipeline.ErrorLines | src/main.rs:149-153 | one "Error while filtering events" line per error, in order |
| Pipeline.RecomposeAppend | src/main.rs:117-148 | output events and errors of a concatenation are those of its parts: other events are unaffected |
| Pipeline.RecomposeCounts | src/main.rs:117-148 | each surviving event yields exactly one output event or one error |
| Pipeline.RecomposeAllValid | src/main.rs:117-148 | when all surviving events have UID and DTSTAMP, the i-th output event is the i-th event's and no error is reported |
| Pipeline.SelectedSources | src/main.rs:66-148 | every output event and every error comes from an event the filter accepts |
| Pipeline.AddOutputEvent | src/main.rs:119-146 | the per-event step adds exactly the event's output event, or reports its error and leaves the calendar unchanged |
| Pipeline.AddOutputEvents | src/main.rs:117-148 | running the step over all events appends their output events in order and returns each event's outcome |
| Pipeline.ReportErrors | src/main.rs:149-153 | the error loop logs one line per failed event, in order |
| Pipeline.Recompose | src/main.rs:115-153 | the output calendar has exactly VERSION and PRODID and the output events of the surviving events; the log holds their errors |
| Pipeline.FilterIcal | src/main.rs:39-153 | the run fails without a calendar, on a parse error, or without VERSION/PRODID values; otherwise the output is the header and output events of the selected events; the log is rule diagnostics, dedup notice, event errors |
| Ics.Event.constructor | src/main.rs:126-135 | a new output event holds UID then DTSTAMP |
| Ics.Event.Push | src/main.rs:137-142 | pushing appends one property |
| Ics.ICalendar.constructor | src/main.rs:115 | a new output calendar holds VERSION then PRODID and no event |
| Ics.ICalendar.AddEvent | src/main.rs:144 | adding appends the event and keeps the header |

## Left out

- Command-line parsing (`Args::parse`), the network fetch, the HTTP server loop, per-connection tasks and response headers: I/O and concurrency. The configuration is the `Pipeline.Args` parameter.
- The iCalendar parser and the writer: a foreign codec. The model takes the parser's results as input and returns the output calendar as a value.
- The regular-expression engine: an uninterpreted parameter; the text of its compile errors and the Debug formatting of error values are not modelled beyond being part of the log line.
- Printing: lines are returned as a list in the order they would be printed.
- Events' alarms and calendar components other than events: the output never contains them, and the model represents events' alarms only to show they are not copied.
- Pipeline.FilterIcal: a parse error is returned as the parser's message; the wrapping the error type adds is not modelled.
