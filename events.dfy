/** The publish/subscribe bus: message name -> handlers, in the order they were registered. */
module Events {

  /** The handlers that a log of `on` calls registered for `message`, oldest first.
      This is the reference meaning of the bus, independent of the map it keeps. */
  function ListenersIn<H>(log: seq<(string, H)>, message: string): seq<H>
  {
    if log == [] then []
    else
      var last := log[|log| - 1];
      ListenersIn(log[..|log| - 1], message) + (if last.0 == message then [last.1] else [])
  }

  /** Registering in two batches gives the handlers of the first batch, then those of the second. */
  lemma {:induction false} ListenersInAppend<H>(a: seq<(string, H)>, b: seq<(string, H)>, message: string)
    ensures ListenersIn(a + b, message) == ListenersIn(a, message) + ListenersIn(b, message)
    decreases |b|
  {
    if b == [] {
      assert a + b == a;
    } else {
      var b' := b[..|b| - 1];
      assert (a + b)[..|a + b| - 1] == a + b';
      ListenersInAppend(a, b', message);
    }
  }

  /** A message has no handlers exactly when no `on` call named it. */
  lemma {:induction false} NoListenersIffNeverRegistered<H>(log: seq<(string, H)>, message: string)
    ensures ListenersIn(log, message) == [] <==> forall k :: 0 <= k < |log| ==> log[k].0 != message
  {
    if log != [] {
      var log' := log[..|log| - 1];
      NoListenersIffNeverRegistered(log', message);
      assert forall k :: 0 <= k < |log'| ==> log'[k] == log[k];
    }
  }

  class EventEmitter<H> {
    /** `listeners[m]` exists once something was registered for m. */
    var listeners: map<string, seq<H>>
    /** Every `on` call so far, in order. */
    ghost var registrations: seq<(string, H)>

    /** The handlers currently held for `message` (none when it has no entry). */
    function Lookup(message: string): seq<H>
      reads this
    {
      if message in listeners then listeners[message] else []
    }

    ghost predicate Valid()
      reads this
    {
      forall message :: Lookup(message) == ListenersIn(registrations, message)
    }

    constructor ()
      ensures Valid()
      ensures listeners == map[] && registrations == []
    {
      listeners := map[];
      registrations := [];
    }

    /** `on`: append `listener` to the handlers of `message`, creating the list on first use. */
    method On(message: string, listener: H)
      requires Valid()
      modifies this
      ensures Valid()
      ensures registrations == old(registrations) + [(message, listener)]
      ensures listeners == old(listeners)[message := old(Lookup(message)) + [listener]]
    {
      if message !in listeners {
        listeners := listeners[message := []];
      }
      listeners := listeners[message := listeners[message] + [listener]];
      registrations := registrations + [(message, listener)];
      assert registrations[..|registrations| - 1] == old(registrations);
    }

    /** `emit`: the handlers to invoke, in the order they run. Nothing on the bus changes,
        and a message nobody registered yields no handler at all. */
    method Emit(message: string) returns (fired: seq<H>)
      requires Valid()
      ensures fired == ListenersIn(registrations, message)
      ensures fired == [] <==> forall k :: 0 <= k < |registrations| ==> registrations[k].0 != message
    {
      fired := Lookup(message);
      NoListenersIffNeverRegistered(registrations, message);
    }
  }
}
