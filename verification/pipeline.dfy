/**
 * The whole filter run on a parsed calendar: compile the blacklist, take the
 * first calendar, filter its events, deduplicate them when asked, check the
 * calendar's VERSION and PRODID, and rebuild a minimal output calendar whose
 * events are the surviving events that have a UID and a DTSTAMP.
 */
module Pipeline {
  import opened Wrappers
  import opened Regex
  import opened Seqs
  import Ical
  import Ics
  import Rules
  import EventFilter
  import Dedup

  /** The run's configuration: the blacklist rule strings and the dedup switch. */
  datatype Args = Args(blacklist: seq<string>, dedup: bool)

  /**
   * The events that reach recomposition: those the filter keeps, then, when
   * `dedup` is set, the first of each key among them. Every one of them is an
   * event the filter accepts, and their order is the input order.
   */
  function Selected(re: Engine, blacklist: map<string, seq<string>>, dedup: bool, events: seq<Ical.Event>): (r: seq<Ical.Event>)
    ensures Subseq(r, events)
    ensures forall e :: e in r ==> e in events && EventFilter.Keep(re, blacklist, e)
  {
    var kept := EventFilter.FilterEvents(re, blacklist, events);
    EventFilter.FilterSubseq(re, blacklist, events);
    EventFilter.FilterMembers(re, blacklist, events);
    if dedup then
      var unique := Dedup.Dedup(kept);
      Dedup.UniqueBySubseq(kept, Dedup.KeyOf, {});
      SubseqTrans(unique, kept, events);
      SubseqMembers(unique, kept);
      unique
    else kept
  }

  /**
   * A calendar header value: `get(name).cloned().flatten()` on the collected
   * top-level properties.
   */
  function HeaderValue(props: seq<Ical.Property>, name: string): Option<string>
  {
    match Ical.Lookup(props, name)
    case None => None
    case Some(value) => value
  }

  /**
   * A header value is the value of the last property called `name`: `None`
   * when there is no such property or when the last one has no value.
   */
  lemma HeaderValueSpec(props: seq<Ical.Property>, name: string)
    ensures !Ical.Has(props, name) ==> HeaderValue(props, name) == None
    ensures forall i :: 0 <= i < |props| && props[i].name == name && Ical.IsLast(props, i) ==>
      HeaderValue(props, name) == props[i].value
  {
    Ical.LookupSpec(props, name);
  }

  /**
   * An event field for the output: `get(name).cloned()` on the event's
   * properties collected with absent values written as "".
   */
  function FieldText(props: seq<Ical.Property>, name: string): Option<string>
  {
    match Ical.Lookup(props, name)
    case None => None
    case Some(value) => Some(value.UnwrapOr(""))
  }

  /**
   * A field is `None` only when no property is called `name`; otherwise it
   * is the text of the last one, "" when that one has no value.
   */
  lemma FieldTextSpec(props: seq<Ical.Property>, name: string)
    ensures FieldText(props, name).None? <==> !Ical.Has(props, name)
    ensures forall i :: 0 <= i < |props| && props[i].name == name && Ical.IsLast(props, i) ==>
      FieldText(props, name) == Some(Ical.Text(props[i]))
  {
    Ical.LookupSpec(props, name);
  }

  /** An input property as written out: same name, its value or "" without one, no parameters. */
  function OutProp(p: Ical.Property): Ics.Prop {
    Ics.Prop(p.name, Ical.Text(p))
  }

  /** The properties as written out, one for one and in the same order. */
  function OutProps(props: seq<Ical.Property>): (r: seq<Ics.Prop>)
    ensures |r| == |props|
    ensures forall i :: 0 <= i < |props| ==> r[i] == OutProp(props[i])
  {
    if props == [] then []
    else OutProps(props[..|props| - 1]) + [OutProp(props[|props| - 1])]
  }

  /**
   * The output event for one surviving event: an error when it has no UID,
   * or has a UID but no DTSTAMP; otherwise UID and DTSTAMP (the texts of
   * their last occurrences) followed by every original property, in the
   * original order.
   */
  function OutputEvent(e: Ical.Event): Result<seq<Ics.Prop>, string>
  {
    var uid := FieldText(e.properties, "UID");
    var dtstamp := FieldText(e.properties, "DTSTAMP");
    if uid.None? then Err("No UID found on event")
    else if dtstamp.None? then Err("No DTSTAMP found on event")
    else
      Ok([Ics.Prop("UID", uid.value), Ics.Prop("DTSTAMP", dtstamp.value)] + OutProps(e.properties))
  }

  /**
   * An event gives an error exactly when UID or DTSTAMP is missing; UID is
   * checked first, so an event lacking both is reported for its UID.
   */
  lemma OutputEventErrors(e: Ical.Event)
    ensures OutputEvent(e).Ok? <==> Ical.Has(e.properties, "UID") && Ical.Has(e.properties, "DTSTAMP")
    ensures !Ical.Has(e.properties, "UID") ==> OutputEvent(e) == Err("No UID found on event")
    ensures Ical.Has(e.properties, "UID") && !Ical.Has(e.properties, "DTSTAMP") ==>
      OutputEvent(e) == Err("No DTSTAMP found on event")
  {
    FieldTextSpec(e.properties, "UID");
    FieldTextSpec(e.properties, "DTSTAMP");
  }

  /**
   * An output event holds the texts of the event's last UID and last
   * DTSTAMP, then every original property, in the original order.
   */
  lemma OutputEventContents(e: Ical.Event)
    requires OutputEvent(e).Ok?
    ensures |OutputEvent(e).value| == |e.properties| + 2
    ensures forall i :: 0 <= i < |e.properties| ==> OutputEvent(e).value[i + 2] == OutProp(e.properties[i])
    ensures forall i :: 0 <= i < |e.properties| && e.properties[i].name == "UID" && Ical.IsLast(e.properties, i) ==>
      OutputEvent(e).value[0] == Ics.Prop("UID", Ical.Text(e.properties[i]))
    ensures forall i :: 0 <= i < |e.properties| && e.properties[i].name == "DTSTAMP" && Ical.IsLast(e.properties, i) ==>
      OutputEvent(e).value[1] == Ics.Prop("DTSTAMP", Ical.Text(e.properties[i]))
  {
    FieldTextSpec(e.properties, "UID");
    FieldTextSpec(e.properties, "DTSTAMP");
  }

  /** The success values among `f`'s results over `xs`, in order. */
  function Successes<T, U, E>(f: T -> Result<U, E>, xs: seq<T>): seq<U>
  {
    if xs == [] then []
    else
      Successes(f, xs[..|xs| - 1]) +
      match f(xs[|xs| - 1])
      case Ok(value) => [value]
      case Err(_) => []
  }

  /** The errors among `f`'s results over `xs`, in order. */
  function Failures<T, U, E>(f: T -> Result<U, E>, xs: seq<T>): seq<E>
  {
    if xs == [] then []
    else
      Failures(f, xs[..|xs| - 1]) +
      match f(xs[|xs| - 1])
      case Ok(_) => []
      case Err(error) => [error]
  }

  /**
   * Each element is handled on its own: the successes and the failures of a
   * concatenation are those of its parts, concatenated.
   */
  lemma {:induction false} PartitionAppend<T, U, E>(f: T -> Result<U, E>, a: seq<T>, b: seq<T>)
    ensures Successes(f, a + b) == Successes(f, a) + Successes(f, b)
    ensures Failures(f, a + b) == Failures(f, a) + Failures(f, b)
    decreases |b|
  {
    if b == [] {
      assert a + b == a;
    } else {
      var b' := b[..|b| - 1];
      assert (a + b)[..|a + b| - 1] == a + b';
      assert (a + b)[|a + b| - 1] == b[|b| - 1];
      PartitionAppend(f, a, b');
    }
  }

  /** Every element gives exactly one success or one failure. */
  lemma {:induction false} PartitionCounts<T, U, E>(f: T -> Result<U, E>, xs: seq<T>)
    ensures |Successes(f, xs)| + |Failures(f, xs)| == |xs|
  {
    if xs != [] {
      PartitionCounts(f, xs[..|xs| - 1]);
    }
  }

  /** When every element succeeds, the i-th success is the i-th element's, and there is no failure. */
  lemma {:induction false} PartitionAllOk<T, U, E>(f: T -> Result<U, E>, xs: seq<T>)
    requires forall i :: 0 <= i < |xs| ==> f(xs[i]).Ok?
    ensures |Successes(f, xs)| == |xs|
    ensures forall i :: 0 <= i < |xs| ==> Successes(f, xs)[i] == f(xs[i]).value
    ensures Failures(f, xs) == []
  {
    if xs != [] {
      var init := xs[..|xs| - 1];
      assert forall i :: 0 <= i < |init| ==> init[i] == xs[i];
      PartitionAllOk(f, init);
    }
  }

  /** Every success and every failure comes from some element. */
  lemma {:induction false} PartitionSources<T, U, E>(f: T -> Result<U, E>, xs: seq<T>)
    ensures forall v :: v in Successes(f, xs) ==> exists x :: x in xs && f(x) == Ok(v)
    ensures forall e :: e in Failures(f, xs) ==> exists x :: x in xs && f(x) == Err(e)
  {
    if xs != [] {
      var init, last := xs[..|xs| - 1], xs[|xs| - 1];
      PartitionSources(f, init);
      assert forall x :: x in init ==> x in xs;
    }
  }

  /** The output events of `events`: one per event with UID and DTSTAMP, in order. */
  function OutputEvents(events: seq<Ical.Event>): seq<seq<Ics.Prop>> {
    Successes(OutputEvent, events)
  }

  /** The errors of `events`: one per event lacking UID or DTSTAMP, in order. */
  function EventErrors(events: seq<Ical.Event>): seq<string> {
    Failures(OutputEvent, events)
  }

  /** The log lines reporting `errors`, one per error, in order. */
  function ErrorLines(errors: seq<string>): (lines: seq<string>)
    ensures |lines| == |errors|
    ensures forall i :: 0 <= i < |errors| ==> lines[i] == "Error while filtering events: " + errors[i]
  {
    if errors == [] then []
    else ErrorLines(errors[..|errors| - 1]) + ["Error while filtering events: " + errors[|errors| - 1]]
  }

  /**
   * Recomposition treats events independently: one event's output event or
   * error does not depend on the others, so the output events and errors
   * of a concatenation are those of its parts, concatenated.
   */
  lemma RecomposeAppend(a: seq<Ical.Event>, b: seq<Ical.Event>)
    ensures OutputEvents(a + b) == OutputEvents(a) + OutputEvents(b)
    ensures EventErrors(a + b) == EventErrors(a) + EventErrors(b)
  {
    PartitionAppend(OutputEvent, a, b);
  }

  /** Every surviving event yields either one output event or one error. */
  lemma RecomposeCounts(events: seq<Ical.Event>)
    ensures |OutputEvents(events)| + |EventErrors(events)| == |events|
  {
    PartitionCounts(OutputEvent, events);
  }

  /**
   * When every surviving event has UID and DTSTAMP, the i-th output event
   * is the i-th event's, and no error is reported.
   */
  lemma RecomposeAllValid(events: seq<Ical.Event>)
    requires forall i :: 0 <= i < |events| ==>
      Ical.Has(events[i].properties, "UID") && Ical.Has(events[i].properties, "DTSTAMP")
    ensures forall i :: 0 <= i < |events| ==> OutputEvent(events[i]).Ok?
    ensures |OutputEvents(events)| == |events|
    ensures forall i :: 0 <= i < |events| ==> OutputEvents(events)[i] == OutputEvent(events[i]).value
    ensures EventErrors(events) == []
  {
    forall i | 0 <= i < |events| ensures OutputEvent(events[i]).Ok? {
      OutputEventErrors(events[i]);
    }
    PartitionAllOk(OutputEvent, events);
  }

  /**
   * Every output event and every reported error comes from an input event
   * that the filter accepts; an event the filter rejects is never reported.
   */
  lemma SelectedSources(re: Engine, blacklist: map<string, seq<string>>, dedup: bool, events: seq<Ical.Event>)
    ensures forall o :: o in OutputEvents(Selected(re, blacklist, dedup, events)) ==>
      exists e :: e in events && EventFilter.Keep(re, blacklist, e) && OutputEvent(e) == Ok(o)
    ensures forall m :: m in EventErrors(Selected(re, blacklist, dedup, events)) ==>
      exists e :: e in events && EventFilter.Keep(re, blacklist, e) && OutputEvent(e) == Err(m)
  {
    PartitionSources(OutputEvent, Selected(re, blacklist, dedup, events));
  }

  /**
   * The output counterpart of one surviving event, added to `output` as the
   * per-event step of recomposition does: look up UID then DTSTAMP, failing
   * on the first one missing; otherwise create the event from them, push
   * every original property onto it in order, and add it to the calendar.
   */
  method AddOutputEvent(output: Ics.ICalendar, e: Ical.Event) returns (r: Result<(), string>)
    modifies output
    ensures output.properties == old(output.properties)
    ensures OutputEvent(e).Ok? ==> r == Ok(()) && output.events == old(output.events) + [OutputEvent(e).value]
    ensures OutputEvent(e).Err? ==> r == Err(OutputEvent(e).error) && output.events == old(output.events)
  {
    var uid := FieldText(e.properties, "UID");
    if uid.None? {
      return Err("No UID found on event");
    }
    var dtstamp := FieldText(e.properties, "DTSTAMP");
    if dtstamp.None? {
      return Err("No DTSTAMP found on event");
    }
    var outputEvent := new Ics.Event(uid.value, dtstamp.value);
    for i := 0 to |e.properties|
      invariant output.properties == old(output.properties) && output.events == old(output.events)
      invariant outputEvent.properties
        == [Ics.Prop("UID", uid.value), Ics.Prop("DTSTAMP", dtstamp.value)] + OutProps(e.properties[..i])
    {
      assert e.properties[..i + 1][..i] == e.properties[..i];
      outputEvent.Push(OutProp(e.properties[i]));
    }
    assert e.properties[..|e.properties|] == e.properties;
    output.AddEvent(outputEvent);
    r := Ok(());
  }

  /** What the per-event step returns for `e`: success, or the error it reports. */
  function Outcome(e: Ical.Event): Result<(), string> {
    match OutputEvent(e)
    case Ok(_) => Ok(())
    case Err(message) => Err(message)
  }

  /** Runs the per-event step over `events` in order, collecting what each returns. */
  method AddOutputEvents(output: Ics.ICalendar, events: seq<Ical.Event>) returns (results: seq<Result<(), string>>)
    modifies output
    ensures output.properties == old(output.properties)
    ensures output.events == old(output.events) + OutputEvents(events)
    ensures |results| == |events|
    ensures forall k :: 0 <= k < |events| ==> results[k] == Outcome(events[k])
  {
    results := [];
    for i := 0 to |events|
      invariant output.properties == old(output.properties)
      invariant output.events == old(output.events) + OutputEvents(events[..i])
      invariant |results| == i
      invariant forall k :: 0 <= k < i ==> results[k] == Outcome(events[k])
    {
      var result := AddOutputEvent(output, events[i]);
      results := results + [result];
      assert events[..i + 1][..i] == events[..i];
    }
    assert events[..|events|] == events;
  }

  /** Reports every error among `results`, in order: one line per event lacking UID or DTSTAMP. */
  method ReportErrors(events: seq<Ical.Event>, results: seq<Result<(), string>>) returns (log: seq<string>)
    requires |results| == |events|
    requires forall k :: 0 <= k < |events| ==> results[k] == Outcome(events[k])
    ensures log == ErrorLines(EventErrors(events))
  {
    log := [];
    for i := 0 to |results|
      invariant log == ErrorLines(EventErrors(events[..i]))
    {
      assert events[..i + 1][..i] == events[..i];
      if results[i].Err? {
        log := log + ["Error while filtering events: " + results[i].error];
      }
    }
    assert events[..|events|] == events;
  }

  /**
   * Recomposition: a calendar created with `version` and `prodId`, to which
   * each event's output counterpart is added in turn; afterwards the error of
   * every event that had none is reported, in order.
   */
  method Recompose(version: string, prodId: string, events: seq<Ical.Event>)
    returns (calendar: Ics.CalendarValue, log: seq<string>)
    ensures calendar.properties == [Ics.Prop("VERSION", version), Ics.Prop("PRODID", prodId)]
    ensures calendar.events == OutputEvents(events)
    ensures log == ErrorLines(EventErrors(events))
  {
    var output := new Ics.ICalendar(version, prodId);
    var results := AddOutputEvents(output, events);
    log := ReportErrors(events, results);
    calendar := output.Value();
  }

  /**
   * One filter run. `parsed` is what the calendar parser yields, in order;
   * only its first calendar is used.
   *
   * Fails with "No calendar found" when the parser yields nothing, with the
   * parser's error when the first calendar does not parse, and with a
   * missing-VERSION or missing-PRODID error when the calendar's last VERSION
   * or PRODID is absent or has no value. Otherwise the output calendar's
   * top-level properties are exactly that VERSION and PRODID, and its events
   * are the output events of the selected events. The log holds the rule
   * diagnostics, then "Deduping events" when dedup is on and a calendar was
   * found, then one line per selected event lacking UID or DTSTAMP.
   */
  method FilterIcal(re: Engine, args: Args, parsed: seq<Result<Ical.Calendar, string>>)
    returns (out: Result<Ics.CalendarValue, string>, log: seq<string>)
    ensures parsed == [] ==> out == Err("No calendar found") && log == Rules.RuleDiagnostics(re, args.blacklist)
    ensures parsed != [] && parsed[0].Err? ==>
      out == Err(parsed[0].error) && log == Rules.RuleDiagnostics(re, args.blacklist)
    ensures parsed != [] && parsed[0].Ok? ==>
      var cal := parsed[0].value;
      var version := HeaderValue(cal.properties, "VERSION");
      var prodId := HeaderValue(cal.properties, "PRODID");
      var events := Selected(re, Rules.RuleMap(re, args.blacklist), args.dedup, cal.events);
      && (out.Ok? <==> version.Some? && prodId.Some?)
      && (version.None? ==> out == Err("No VERSION found on calendar"))
      && (version.Some? && prodId.None? ==> out == Err("No PRODID found on calendar"))
      && (out.Ok? ==> out.value == Ics.CalendarValue(
            [Ics.Prop("VERSION", version.value), Ics.Prop("PRODID", prodId.value)],
            OutputEvents(events)))
      && log == Rules.RuleDiagnostics(re, args.blacklist)
                + (if args.dedup then ["Deduping events"] else [])
                + (if out.Ok? then ErrorLines(EventErrors(events)) else [])
  {
    var blacklist, ruleLog := Rules.CompileRules(re, args.blacklist);
    log := ruleLog;

    if parsed == [] {
      return Err("No calendar found"), log;
    }
    if parsed[0].Err? {
      return Err(parsed[0].error), log;
    }
    var calendar := parsed[0].value;

    var events := EventFilter.FilterEvents(re, blacklist, calendar.events);
    if args.dedup {
      log := log + ["Deduping events"];
      events := Dedup.Dedup(events);
    }
    assert events == Selected(re, blacklist, args.dedup, calendar.events);

    var version := HeaderValue(calendar.properties, "VERSION");
    if version.None? {
      return Err("No VERSION found on calendar"), log;
    }
    var prodId := HeaderValue(calendar.properties, "PRODID");
    if prodId.None? {
      return Err("No PRODID found on calendar"), log;
    }

    var calendarOut, eventLog := Recompose(version.value, prodId.value, events);
    log := log + eventLog;
    out := Ok(calendarOut);
  }
}
