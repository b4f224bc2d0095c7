/** The event table: a mutable map from event id to the schema of that event's body. */
module Registries {
  import opened Schemas

  class Registry {
    var events: map<int, Schema>

    /** An empty table: no event is registered. */
    constructor ()
      ensures events == map[]
    {
      events := map[];
    }

    /** The schema registered for `event`, absent when there is none. */
    function GetSchema(event: int): (r: Option<Schema>)
      reads this
      ensures r.Some? <==> event in events
      ensures r.Some? ==> r.value == events[event]
    {
      if event in events then Some(events[event]) else None
    }

    /** Records `body` as the schema of `event`, replacing any earlier one. */
    method Register(event: int, body: Schema)
      modifies this
      ensures events == old(events)[event := body]
      ensures GetSchema(event) == Some(body)
      ensures forall e :: e != event ==> GetSchema(e) == old(GetSchema(e))
    {
      events := events[event := body];
    }
  }

  /** A fresh registry answers absent for every event. */
  method FreshRegistryIsEmpty(event: int) returns (r: Option<Schema>)
    ensures r == None
  {
    var registry := new Registry();
    r := registry.GetSchema(event);
  }

  /** Registering an event twice keeps only the later schema, and leaves every other event alone. */
  method RegisterTwice(event: int, first: Schema, second: Schema, other: int) returns (got: Option<Schema>, gotOther: Option<Schema>)
    requires other != event
    ensures got == Some(second)
    ensures gotOther == Some(first)
  {
    var registry := new Registry();
    registry.Register(other, first);
    registry.Register(event, first);
    registry.Register(event, second);
    got := registry.GetSchema(event);
    gotOther := registry.GetSchema(other);
  }
}
