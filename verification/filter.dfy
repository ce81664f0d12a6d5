/**
 * The event filter: an event is kept when none of its properties is rejected
 * by a pattern listed for that property's name in the blacklist map.
 */
module EventFilter {
  import opened Regex
  import opened Seqs
  import Ical

  /** `all(|r| !r.is_match(text))`: no pattern of `patterns` matches `text`. */
  function NoneMatch(re: Engine, patterns: seq<string>, text: string): (r: bool)
    ensures r <==> forall j :: 0 <= j < |patterns| ==> !re.isMatch(patterns[j], text)
  {
    if patterns == [] then true
    else !re.isMatch(patterns[0], text) && NoneMatch(re, patterns[1..], text)
  }

  /** `all` over the properties: each property whose name has patterns passes `NoneMatch`. */
  function AllPass(re: Engine, blacklist: map<string, seq<string>>, props: seq<Ical.Property>): bool
  {
    if props == [] then true
    else
      var p := props[0];
      (p.name in blacklist ==> NoneMatch(re, blacklist[p.name], Ical.Text(p))) &&
      AllPass(re, blacklist, props[1..])
  }

  /**
   * The properties pass exactly when no property has a name with patterns
   * and a text (its value, or "" without one) that one of them matches.
   */
  lemma {:induction false} AllPassSpec(re: Engine, blacklist: map<string, seq<string>>, props: seq<Ical.Property>)
    ensures AllPass(re, blacklist, props) <==>
      forall i, j :: 0 <= i < |props| && props[i].name in blacklist && 0 <= j < |blacklist[props[i].name]|
        ==> !re.isMatch(blacklist[props[i].name][j], Ical.Text(props[i]))
  {
    if props != [] {
      AllPassSpec(re, blacklist, props[1..]);
      assert forall i :: 0 < i < |props| ==> props[i] == props[1..][i - 1];
    }
  }

  /** An event is kept when all its properties pass. */
  predicate Keep(re: Engine, blacklist: map<string, seq<string>>, e: Ical.Event)
  {
    AllPass(re, blacklist, e.properties)
  }

  /**
   * An event is rejected exactly when some property of it has a name with
   * patterns and a text that one of those patterns matches.
   */
  lemma RejectIff(re: Engine, blacklist: map<string, seq<string>>, e: Ical.Event)
    ensures !Keep(re, blacklist, e) <==>
      exists i, j :: 0 <= i < |e.properties| && e.properties[i].name in blacklist
        && 0 <= j < |blacklist[e.properties[i].name]|
        && re.isMatch(blacklist[e.properties[i].name][j], Ical.Text(e.properties[i]))
  {
    AllPassSpec(re, blacklist, e.properties);
  }

  /** The events `Keep` accepts, in their original order. */
  function FilterEvents(re: Engine, blacklist: map<string, seq<string>>, events: seq<Ical.Event>): seq<Ical.Event>
  {
    if events == [] then []
    else if Keep(re, blacklist, events[0]) then [events[0]] + FilterEvents(re, blacklist, events[1..])
    else FilterEvents(re, blacklist, events[1..])
  }

  /** Every filtered event is an accepted input event, and every accepted input event is among them. */
  lemma {:induction false} FilterMembers(re: Engine, blacklist: map<string, seq<string>>, events: seq<Ical.Event>)
    ensures forall e :: e in FilterEvents(re, blacklist, events) ==> e in events && Keep(re, blacklist, e)
    ensures forall i :: 0 <= i < |events| && Keep(re, blacklist, events[i]) ==> events[i] in FilterEvents(re, blacklist, events)
  {
    if events != [] {
      FilterMembers(re, blacklist, events[1..]);
      assert forall i :: 0 < i < |events| ==> events[i] == events[1..][i - 1];
    }
  }

  /** The filtered events are a subsequence of the input: only deletions, order kept. */
  lemma {:induction false} FilterSubseq(re: Engine, blacklist: map<string, seq<string>>, events: seq<Ical.Event>)
    ensures Subseq(FilterEvents(re, blacklist, events), events)
  {
    if events != [] {
      FilterSubseq(re, blacklist, events[1..]);
    }
  }

  /** Filtering a concatenation filters each part independently: no event affects another's fate. */
  lemma {:induction false} FilterAppend(re: Engine, blacklist: map<string, seq<string>>, a: seq<Ical.Event>, b: seq<Ical.Event>)
    ensures FilterEvents(re, blacklist, a + b) == FilterEvents(re, blacklist, a) + FilterEvents(re, blacklist, b)
  {
    if a != [] {
      assert (a + b)[1..] == a[1..] + b;
      FilterAppend(re, blacklist, a[1..], b);
    } else {
      assert a + b == b;
    }
  }

  /** When every event is accepted the filter returns its input unchanged. */
  lemma {:induction false} FilterKeepsAll(re: Engine, blacklist: map<string, seq<string>>, events: seq<Ical.Event>)
    requires forall i :: 0 <= i < |events| ==> Keep(re, blacklist, events[i])
    ensures FilterEvents(re, blacklist, events) == events
  {
    if events != [] {
      FilterKeepsAll(re, blacklist, events[1..]);
    }
  }

  /** With an empty blacklist every event is kept. */
  lemma EmptyBlacklistKeepsAll(re: Engine, events: seq<Ical.Event>)
    ensures FilterEvents(re, map[], events) == events
  {
    forall i | 0 <= i < |events| ensures Keep(re, map[], events[i]) {
      AllPassSpec(re, map[], events[i].properties);
    }
    FilterKeepsAll(re, map[], events);
  }
}
