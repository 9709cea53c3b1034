/** The subtitle data the clean-up works on: caption events whose fields are
    updated in place, and the file object holding the ordered list of events. */
module Events {

  /** One timed caption (an SSA event): start and end times and its plain text. */
  class Event {
    var start: int
    var end: int
    var text: string

    constructor (start: int, end: int, text: string)
      ensures this.start == start && this.end == end && this.text == text
    {
      this.start := start;
      this.end := end;
      this.text := text;
    }
  }

  /** The values held by one event at some moment. */
  datatype EventValue = EventValue(start: int, end: int, text: string)

  /** The field values of a list of events, in list order. */
  ghost function Snapshot(evs: seq<Event>): seq<EventValue>
    reads set e | e in evs
  {
    seq(|evs|, k requires 0 <= k < |evs| reads set e | e in evs => EventValue(evs[k].start, evs[k].end, evs[k].text))
  }

  /** The events at positions `a` and `b` are different objects. */
  predicate Apart(evs: seq<Event>, a: nat, b: nat)
    requires a < |evs| && b < |evs|
  {
    evs[a] != evs[b]
  }

  /** No event object occurs twice in the list. */
  predicate Distinct(evs: seq<Event>) {
    forall a, b :: 0 <= a < b < |evs| ==> Apart(evs, a, b)
  }

  lemma DistinctAt(evs: seq<Event>, a: nat, b: nat)
    requires Distinct(evs) && a < |evs| && b < |evs| && a != b
    ensures evs[a] != evs[b]
  {
    if a < b {
      assert Apart(evs, a, b);
    } else {
      assert Apart(evs, b, a);
    }
  }

  /** The position at `a` comes before the one at `b`. */
  predicate Ordered(idx: seq<nat>, a: nat, b: nat)
    requires a < |idx| && b < |idx|
  {
    idx[a] < idx[b]
  }

  /** Strictly increasing positions. */
  predicate Increasing(idx: seq<nat>) {
    forall a, b :: 0 <= a < b < |idx| ==> Ordered(idx, a, b)
  }

  /** Every position is below `n`. */
  predicate Below(idx: seq<nat>, n: nat) {
    forall j :: 0 <= j < |idx| ==> idx[j] < n
  }

  /** Appending a position at or above the bound keeps the positions increasing. */
  lemma AppendIncreasing(idx: seq<nat>, n: nat, x: nat, m: nat)
    requires Increasing(idx) && Below(idx, n) && n <= x < m
    ensures Increasing(idx + [x]) && Below(idx + [x], m)
  {
    var ext := idx + [x];
    forall a, b | 0 <= a < b < |ext| ensures Ordered(ext, a, b) {
      if b < |idx| {
        assert Ordered(idx, a, b);
      }
    }
  }

  /** The events at the given positions, in the order of the positions. */
  function Pick(evs: seq<Event>, idx: seq<nat>): (p: seq<Event>)
    requires Below(idx, |evs|)
    ensures |p| == |idx|
  {
    if idx == [] then [] else Pick(evs, idx[..|idx| - 1]) + [evs[idx[|idx| - 1]]]
  }

  /** The `j`-th picked event is the event at the `j`-th position. */
  lemma {:induction false} PickAt(evs: seq<Event>, idx: seq<nat>, j: nat)
    requires Below(idx, |evs|) && j < |idx|
    ensures Pick(evs, idx)[j] == evs[idx[j]]
  {
    if j < |idx| - 1 {
      PickAt(evs, idx[..|idx| - 1], j);
    }
  }

  lemma PickAppend(evs: seq<Event>, idx: seq<nat>, m: nat)
    requires Below(idx, |evs|) && m < |evs|
    ensures Below(idx + [m], |evs|) && Pick(evs, idx + [m]) == Pick(evs, idx) + [evs[m]]
  {
    assert Below(idx + [m], |evs|);
    assert (idx + [m])[..|idx|] == idx;
  }

  /** An order-preserving selection from a list of distinct events holds distinct events. */
  lemma PickDistinct(evs: seq<Event>, idx: seq<nat>)
    requires Distinct(evs) && Increasing(idx) && Below(idx, |evs|)
    ensures Distinct(Pick(evs, idx))
  {
    var p := Pick(evs, idx);
    forall a, b | 0 <= a < b < |p| ensures Apart(p, a, b) {
      assert Ordered(idx, a, b);
      PickAt(evs, idx, a);
      PickAt(evs, idx, b);
      assert Apart(evs, idx[a], idx[b]);
    }
  }

  /** The subtitle file: its event list is replaced by the filtering passes. */
  class SubtitleFile {
    var events: seq<Event>

    ghost predicate Valid()
      reads this
    {
      Distinct(events)
    }

    constructor (events: seq<Event>)
      requires Distinct(events)
      ensures Valid() && this.events == events
    {
      this.events := events;
    }
  }
}
