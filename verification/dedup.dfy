/**
 * Deduplication by (DTSTART, DTEND, SUMMARY): a single pass over the events
 * that keeps an event only when no earlier event had the same key.
 */
module Dedup {
  import opened Wrappers
  import opened Seqs
  import Ical

  /**
   * The key of an event, each component looked up in its collected
   * name-to-value map: `None` for a missing property, `Some(None)` for a
   * property present without a value, `Some(Some(v))` otherwise.
   */
  type Key = (Option<Option<string>>, Option<Option<string>>, Option<Option<string>>)

  function KeyOf(e: Ical.Event): Key {
    (Ical.Lookup(e.properties, "DTSTART"), Ical.Lookup(e.properties, "DTEND"), Ical.Lookup(e.properties, "SUMMARY"))
  }

  /** The names whose values make up the key, in key order. */
  predicate IsKeyName(name: string) {
    name == "DTSTART" || name == "DTEND" || name == "SUMMARY"
  }

  /** The component of a key that comes from the property `name`. */
  function Component(k: Key, name: string): Option<Option<string>>
    requires IsKeyName(name)
  {
    if name == "DTSTART" then k.0 else if name == "DTEND" then k.1 else k.2
  }

  /**
   * An event without a key property and one whose last such property has
   * no value never share a key.
   */
  lemma MissingDiffersFromEmpty(a: Ical.Event, b: Ical.Event, name: string, i: nat)
    requires IsKeyName(name)
    requires !Ical.Has(a.properties, name)
    requires i < |b.properties| && b.properties[i].name == name && Ical.IsLast(b.properties, i)
    requires b.properties[i].value == None
    ensures Component(KeyOf(a), name) == None
    ensures Component(KeyOf(b), name) == Some(None)
    ensures KeyOf(a) != KeyOf(b)
  {
    Ical.LookupSpec(a.properties, name);
    Ical.LookupSpec(b.properties, name);
  }

  /** Each key component is the value of the last property with that name. */
  lemma KeyUsesLastOccurrence(e: Ical.Event, name: string, i: nat)
    requires IsKeyName(name)
    requires i < |e.properties| && e.properties[i].name == name && Ical.IsLast(e.properties, i)
    ensures Component(KeyOf(e), name) == Some(e.properties[i].value)
  {
    Ical.LookupSpec(e.properties, name);
  }

  /** `xs[i]` is the first element of `xs` with its key. */
  ghost predicate IsFirst<T, K>(xs: seq<T>, key: T -> K, i: int)
    requires 0 <= i < |xs|
  {
    forall j :: 0 <= j < i ==> key(xs[j]) != key(xs[i])
  }

  /**
   * `unique_by(key)`: walks `xs` in order with the set of keys already
   * seen, keeping an element only when its key is new.
   */
  function UniqueBy<T, K(==)>(xs: seq<T>, key: T -> K, seen: set<K>): seq<T>
  {
    if xs == [] then []
    else if key(xs[0]) in seen then UniqueBy(xs[1..], key, seen)
    else [xs[0]] + UniqueBy(xs[1..], key, seen + {key(xs[0])})
  }

  /** The kept elements are a subsequence of the input. */
  lemma {:induction false} UniqueBySubseq<T, K>(xs: seq<T>, key: T -> K, seen: set<K>)
    ensures Subseq(UniqueBy(xs, key, seen), xs)
  {
    if xs != [] {
      if key(xs[0]) in seen {
        UniqueBySubseq(xs[1..], key, seen);
      } else {
        UniqueBySubseq(xs[1..], key, seen + {key(xs[0])});
      }
    }
  }

  /** No two kept elements share a key, and no kept element has a key seen before. */
  lemma {:induction false} UniqueByDistinct<T, K>(xs: seq<T>, key: T -> K, seen: set<K>)
    ensures forall i :: 0 <= i < |UniqueBy(xs, key, seen)| ==> key(UniqueBy(xs, key, seen)[i]) !in seen
    ensures forall i, j :: 0 <= i < j < |UniqueBy(xs, key, seen)| ==>
      key(UniqueBy(xs, key, seen)[i]) != key(UniqueBy(xs, key, seen)[j])
  {
    if xs != [] {
      var k := key(xs[0]);
      var r := UniqueBy(xs, key, seen);
      if k in seen {
        assert r == UniqueBy(xs[1..], key, seen);
        UniqueByDistinct(xs[1..], key, seen);
      } else {
        var rest := UniqueBy(xs[1..], key, seen + {k});
        assert r == [xs[0]] + rest;
        UniqueByDistinct(xs[1..], key, seen + {k});
        assert forall i :: 0 < i < |r| ==> r[i] == rest[i - 1];
      }
    }
  }

  /** The kept element at position `i` is an input element that is the first one with its key. */
  lemma {:induction false} UniqueByOnlyFirsts<T, K>(xs: seq<T>, key: T -> K, seen: set<K>, i: nat)
    requires i < |UniqueBy(xs, key, seen)|
    ensures exists j :: 0 <= j < |xs| && UniqueBy(xs, key, seen)[i] == xs[j] && IsFirst(xs, key, j)
  {
    var k := key(xs[0]);
    var seen' := if k in seen then seen else seen + {k};
    var rest := UniqueBy(xs[1..], key, seen');
    if k !in seen && i == 0 {
      assert UniqueBy(xs, key, seen)[0] == xs[0] && IsFirst(xs, key, 0);
    } else {
      var i' := if k in seen then i else i - 1;
      assert UniqueBy(xs, key, seen)[i] == rest[i'];
      UniqueByOnlyFirsts(xs[1..], key, seen', i');
      UniqueByDistinct(xs[1..], key, seen');
      var j' :| 0 <= j' < |xs[1..]| && rest[i'] == xs[1..][j'] && IsFirst(xs[1..], key, j');
      assert key(rest[i']) !in seen';
      assert IsFirst(xs, key, j' + 1);
    }
  }

  /**
   * Appending one element to the input appends it to the result exactly
   * when its key is neither seen nor carried by an earlier element: with
   * `UniqueBy([], key, seen) == []` this fixes the result, order included.
   */
  lemma {:induction false} UniqueBySnoc<T, K>(xs: seq<T>, x: T, key: T -> K, seen: set<K>)
    ensures UniqueBy(xs + [x], key, seen) == UniqueBy(xs, key, seen) +
      (if key(x) in seen || exists i :: 0 <= i < |xs| && key(xs[i]) == key(x) then [] else [x])
  {
    if xs == [] {
      assert xs + [x] == [x];
    } else {
      var k := key(xs[0]);
      var seen' := if k in seen then seen else seen + {k};
      assert (xs + [x])[0] == xs[0];
      assert (xs + [x])[1..] == xs[1..] + [x];
      UniqueBySnoc(xs[1..], x, key, seen');
      var before := key(x) in seen || exists i :: 0 <= i < |xs| && key(xs[i]) == key(x);
      var after := key(x) in seen' || exists i :: 0 <= i < |xs[1..]| && key(xs[1..][i]) == key(x);
      if before && key(x) !in seen {
        var i :| 0 <= i < |xs| && key(xs[i]) == key(x);
        if i > 0 {
          assert key(xs[1..][i - 1]) == key(x);
        }
      }
      if after && key(x) !in seen' {
        var i :| 0 <= i < |xs[1..]| && key(xs[1..][i]) == key(x);
        assert key(xs[i + 1]) == key(x);
      }
      assert before == after;
    }
  }

  /** The first element with each key not seen before is kept. */
  lemma {:induction false} UniqueByKeepsFirsts<T, K>(xs: seq<T>, key: T -> K, seen: set<K>)
    ensures forall i :: 0 <= i < |xs| && IsFirst(xs, key, i) && key(xs[i]) !in seen ==> xs[i] in UniqueBy(xs, key, seen)
  {
    if xs != [] {
      var k := key(xs[0]);
      var seen' := if k in seen then seen else seen + {k};
      UniqueByKeepsFirsts(xs[1..], key, seen');
      forall i | 0 < i < |xs| && IsFirst(xs, key, i) && key(xs[i]) !in seen
        ensures xs[i] in UniqueBy(xs, key, seen)
      {
        assert key(xs[0]) != key(xs[i]);
        assert xs[i] == xs[1..][i - 1];
        assert IsFirst(xs[1..], key, i - 1);
      }
    }
  }

  /** Deduplication of a whole event sequence: `unique_by` on `KeyOf`, starting with no key seen. */
  function Dedup(events: seq<Ical.Event>): seq<Ical.Event> {
    UniqueBy(events, KeyOf, {})
  }

  /**
   * Deduplication keeps the first event of each key: the result is a
   * subsequence of the input, its keys are pairwise distinct, every element
   * is the first input event with its key, and the first input event of
   * every key is in it. `DedupSnoc` fixes the order of the kept events.
   */
  lemma DedupSpec(events: seq<Ical.Event>)
    ensures Subseq(Dedup(events), events)
    ensures forall i, j :: 0 <= i < j < |Dedup(events)| ==> KeyOf(Dedup(events)[i]) != KeyOf(Dedup(events)[j])
    ensures forall i :: 0 <= i < |Dedup(events)| ==>
      exists j :: 0 <= j < |events| && Dedup(events)[i] == events[j] && IsFirst(events, KeyOf, j)
    ensures forall i :: 0 <= i < |events| && IsFirst(events, KeyOf, i) ==> events[i] in Dedup(events)
  {
    UniqueBySubseq(events, KeyOf, {});
    UniqueByDistinct(events, KeyOf, {});
    forall i | 0 <= i < |Dedup(events)|
      ensures exists j :: 0 <= j < |events| && Dedup(events)[i] == events[j] && IsFirst(events, KeyOf, j)
    {
      UniqueByOnlyFirsts(events, KeyOf, {}, i);
    }
    UniqueByKeepsFirsts(events, KeyOf, {});
  }

  /**
   * Deduplication of `events` followed by `e` is the deduplication of
   * `events`, followed by `e` exactly when no event of `events` has its key.
   */
  lemma DedupSnoc(events: seq<Ical.Event>, e: Ical.Event)
    ensures Dedup(events + [e]) == Dedup(events) +
      (if exists i :: 0 <= i < |events| && KeyOf(events[i]) == KeyOf(e) then [] else [e])
  {
    UniqueBySnoc(events, e, KeyOf, {});
  }
}
