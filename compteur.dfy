/** The Compteur component: a counter with "+" and "-" buttons. */
module Compteur {

  datatype Click = Increment | Decrement

  /** The number of clicks of one kind. */
  function Occurrences(clicks: seq<Click>, kind: Click): nat {
    if clicks == [] then 0
    else (if clicks[0] == kind then 1 else 0) + Occurrences(clicks[1..], kind)
  }

  /** The value reached from `start` by handling `clicks` in order. */
  function Replayed(start: int, clicks: seq<Click>): int
    decreases clicks
  {
    if clicks == [] then start
    else Replayed(if clicks[0] == Increment then start + 1 else start - 1, clicks[1..])
  }

  /** Whatever the order, the counter moves by the increments minus the decrements. */
  lemma {:induction false} ReplayedNet(start: int, clicks: seq<Click>)
    ensures Replayed(start, clicks) == start + Occurrences(clicks, Increment) - Occurrences(clicks, Decrement)
    decreases clicks
  {
    if clicks != [] {
      ReplayedNet(if clicks[0] == Increment then start + 1 else start - 1, clicks[1..]);
    }
  }

  /** An increment followed by a decrement restores the value, and so does the reverse. */
  lemma IncrementThenDecrement(start: int)
    ensures Replayed(start, [Increment, Decrement]) == start
    ensures Replayed(start, [Decrement, Increment]) == start
  {
    assert [Increment, Decrement][1..] == [Decrement] && [Decrement][1..] == [];
    assert [Decrement, Increment][1..] == [Increment] && [Increment][1..] == [];
  }

  /** Decrements have no lower bound: from 0 one click goes to -1. */
  lemma DecrementBelowZero()
    ensures Replayed(0, [Decrement]) == -1
  {
    assert [Decrement][1..] == [];
  }

  class Counter {
    var count: int

    constructor ()
      ensures count == 0
    {
      count := 0;
    }

    /** `handleIncrement`. */
    method HandleIncrement()
      modifies this
      ensures count == old(count) + 1
    {
      count := count + 1;
    }

    /** `handleDecrement`: no lower bound. */
    method HandleDecrement()
      modifies this
      ensures count == old(count) - 1
    {
      count := count - 1;
    }

    /** Handle a sequence of button clicks, one after the other. */
    method HandleClicks(clicks: seq<Click>)
      modifies this
      ensures count == Replayed(old(count), clicks)
      ensures count == old(count) + Occurrences(clicks, Increment) - Occurrences(clicks, Decrement)
    {
      var i := 0;
      while i < |clicks|
        invariant 0 <= i <= |clicks|
        invariant Replayed(count, clicks[i..]) == Replayed(old(count), clicks)
      {
        assert clicks[i..][1..] == clicks[i + 1..];
        if clicks[i] == Increment {
          HandleIncrement();
        } else {
          HandleDecrement();
        }
        i := i + 1;
      }
      ReplayedNet(old(count), clicks);
    }
  }
}
