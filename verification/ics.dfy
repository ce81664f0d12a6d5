/**
 * The output calendar, built the way the iCalendar writer library builds
 * one: a calendar object created with its VERSION and PRODID, event objects
 * created with their UID and DTSTAMP, properties pushed onto an event and
 * events added to the calendar. Output properties carry a name and a text
 * value only.
 */
module Ics {

  datatype Prop = Prop(name: string, value: string)

  /** A finished calendar: its top-level properties and each event's properties. */
  datatype CalendarValue = CalendarValue(properties: seq<Prop>, events: seq<seq<Prop>>)

  /** An event under construction. */
  class Event {
    var properties: seq<Prop>

    constructor (uid: string, dtstamp: string)
      ensures properties == [Prop("UID", uid), Prop("DTSTAMP", dtstamp)]
    {
      properties := [Prop("UID", uid), Prop("DTSTAMP", dtstamp)];
    }

    method Push(p: Prop)
      modifies this
      ensures properties == old(properties) + [p]
    {
      properties := properties + [p];
    }
  }

  /** A calendar under construction. */
  class ICalendar {
    var properties: seq<Prop>
    var events: seq<seq<Prop>>

    constructor (version: string, prodId: string)
      ensures properties == [Prop("VERSION", version), Prop("PRODID", prodId)]
      ensures events == []
    {
      properties := [Prop("VERSION", version), Prop("PRODID", prodId)];
      events := [];
    }

    /** Takes the event over: its properties as they are now become the calendar's next event. */
    method AddEvent(e: Event)
      modifies this
      ensures properties == old(properties)
      ensures events == old(events) + [e.properties]
    {
      events := events + [e.properties];
    }

    function Value(): CalendarValue
      reads this
    {
      CalendarValue(properties, events)
    }
  }
}
