/**
 * The parsed input calendar, as the iCalendar parser hands it over: a
 * calendar is its top-level properties and its events; an event is its
 * properties (and alarm sub-components); a property is a name, optional
 * parameters and an optional value.
 */
module Ical {
  import opened Wrappers

  /** A property parameter: its name and its values. */
  type Parameter = (string, seq<string>)

  datatype Property = Property(name: string, params: Option<seq<Parameter>>, value: Option<string>)

  datatype Alarm = Alarm(properties: seq<Property>)

  datatype Event = Event(properties: seq<Property>, alarms: seq<Alarm>)

  datatype Calendar = Calendar(properties: seq<Property>, events: seq<Event>)

  /** The text a property is matched against and written out as: its value, or "" without one. */
  function Text(p: Property): string {
    p.value.UnwrapOr("")
  }

  /** Some property of `props` is called `name`. */
  predicate Has(props: seq<Property>, name: string) {
    exists i :: 0 <= i < |props| && props[i].name == name
  }

  /** `props[i]` is the last property of `props` with its name. */
  ghost predicate IsLast(props: seq<Property>, i: int)
    requires 0 <= i < |props|
  {
    forall j :: i < j < |props| ==> props[j].name != props[i].name
  }

  /**
   * The name-to-value map obtained by collecting the (name, value) pairs of
   * `props` into a hash map, in order, so that a later pair overwrites an
   * earlier one with the same name (see `CollectSpec`).
   */
  function Collect(props: seq<Property>): map<string, Option<string>>
    decreases |props|
  {
    if props == [] then map[]
    else Collect(props[..|props| - 1])[props[|props| - 1].name := props[|props| - 1].value]
  }

  /**
   * What collecting `props` into `m` gives: exactly the names of `props` as
   * keys, each bound to the value of its last occurrence.
   */
  ghost predicate CollectsTo(props: seq<Property>, m: map<string, Option<string>>) {
    KeysFrom(props, m) && KeysCover(props, m) && LastWins(props, m)
  }

  ghost predicate KeysFrom(props: seq<Property>, m: map<string, Option<string>>) {
    forall k :: k in m ==> Has(props, k)
  }

  ghost predicate KeysCover(props: seq<Property>, m: map<string, Option<string>>) {
    forall i :: 0 <= i < |props| ==> props[i].name in m
  }

  ghost predicate LastWins(props: seq<Property>, m: map<string, Option<string>>)
    requires KeysCover(props, m)
  {
    forall i :: 0 <= i < |props| && IsLast(props, i) ==> m[props[i].name] == props[i].value
  }

  /** The collected map has exactly the names of `props` as keys, each bound to its last occurrence's value. */
  lemma {:induction false} CollectSpec(props: seq<Property>)
    ensures CollectsTo(props, Collect(props))
    decreases |props|
  {
    if props != [] {
      CollectSpec(props[..|props| - 1]);
      CollectStep(props, Collect(props[..|props| - 1]));
    }
  }

  /** Inserting the last property into the map collected from the others completes the collection. */
  lemma CollectStep(props: seq<Property>, m0: map<string, Option<string>>)
    requires props != [] && CollectsTo(props[..|props| - 1], m0)
    ensures CollectsTo(props, m0[props[|props| - 1].name := props[|props| - 1].value])
  {
    KeysFromStep(props, m0);
    KeysCoverStep(props, m0);
    LastWinsStep(props, m0);
  }

  lemma KeysFromStep(props: seq<Property>, m0: map<string, Option<string>>)
    requires props != [] && KeysFrom(props[..|props| - 1], m0)
    ensures KeysFrom(props, m0[props[|props| - 1].name := props[|props| - 1].value])
  {
    var init, last := props[..|props| - 1], props[|props| - 1];
    forall k | k in m0 && k != last.name ensures Has(props, k) {
      var i :| 0 <= i < |init| && init[i].name == k;
      assert props[i].name == k;
    }
    assert props[|props| - 1].name == last.name;
  }

  lemma KeysCoverStep(props: seq<Property>, m0: map<string, Option<string>>)
    requires props != [] && KeysCover(props[..|props| - 1], m0)
    ensures KeysCover(props, m0[props[|props| - 1].name := props[|props| - 1].value])
  {
    var init := props[..|props| - 1];
    forall i | 0 <= i < |init| ensures props[i].name in m0 {
      assert init[i] == props[i];
    }
  }

  lemma LastWinsStep(props: seq<Property>, m0: map<string, Option<string>>)
    requires props != [] && KeysCover(props[..|props| - 1], m0) && LastWins(props[..|props| - 1], m0)
    ensures KeysCover(props, m0[props[|props| - 1].name := props[|props| - 1].value])
    ensures LastWins(props, m0[props[|props| - 1].name := props[|props| - 1].value])
  {
    KeysCoverStep(props, m0);
    var init, last := props[..|props| - 1], props[|props| - 1];
    var m := m0[last.name := last.value];
    forall i | 0 <= i < |init| && IsLast(props, i) ensures m[props[i].name] == props[i].value {
      assert init[i] == props[i];
      assert props[i].name != last.name;
      assert IsLast(init, i);
    }
  }

  /**
   * `map.get(name).cloned()` on the collected map: `None` when no property is
   * called `name`, otherwise `Some` of the last such property's value (see
   * `LookupSpec`).
   */
  function Lookup(props: seq<Property>, name: string): Option<Option<string>>
  {
    var m := Collect(props);
    if name in m then Some(m[name]) else None
  }

  /**
   * A lookup finds nothing exactly when no property has the name, and
   * otherwise the value of the last property with it — so a missing property
   * (`None`) differs from one present without a value (`Some(None)`).
   */
  lemma LookupSpec(props: seq<Property>, name: string)
    ensures Lookup(props, name).None? <==> !Has(props, name)
    ensures forall i :: 0 <= i < |props| && props[i].name == name && IsLast(props, i) ==>
      Lookup(props, name) == Some(props[i].value)
  {
    CollectSpec(props);
  }
}
