/** Runs of a state machine as sequences of events, taken apart at their last event. */
module Runs {
  function Front<E>(events: seq<E>): seq<E>
    requires events != []
  {
    events[..|events| - 1]
  }

  function Latest<E>(events: seq<E>): E
    requires events != []
  {
    events[|events| - 1]
  }

  lemma AppendedEvent<E>(events: seq<E>, e: E)
    ensures Front(events + [e]) == events && Latest(events + [e]) == e
  {
  }
}
