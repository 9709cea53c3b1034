/** The caption clean-up passes of the subtitle converter: un-escaping `&amp;`,
    merging runs of near-duplicate captions, and dropping too-short events.
    Each pass is a method over the subtitle file, proved against a function on
    the events' values; the properties of the passes are lemmas about those
    functions. */
module Subtitles {
  import opened Text
  import opened RegularTexts
  import opened Events

  // ===========================================================================
  // fix_weird_chars
  // ===========================================================================

  /** Every event's text un-escaped, everything else as it was. */
  function UnescapeAll(vals: seq<EventValue>): (v: seq<EventValue>)
    ensures |v| == |vals|
  {
    seq(|vals|, k requires 0 <= k < |vals| => vals[k].(text := Unescape(vals[k].text)))
  }

  /** Un-escaping keeps the number, order and timing of the events, and leaves a
      text without `&amp;` as it was. */
  lemma UnescapeAllKeepsEvents(vals: seq<EventValue>)
    ensures |UnescapeAll(vals)| == |vals|
    ensures forall k :: 0 <= k < |vals| ==>
      UnescapeAll(vals)[k].start == vals[k].start && UnescapeAll(vals)[k].end == vals[k].end
    ensures forall k :: 0 <= k < |vals| && Absent(vals[k].text, Amp) ==> UnescapeAll(vals)[k] == vals[k]
  {
    forall k | 0 <= k < |vals| && Absent(vals[k].text, Amp) ensures UnescapeAll(vals)[k] == vals[k] {
      UnescapeWithoutAmp(vals[k].text);
    }
  }

  /** Rewrites every event's text in place. */
  method FixWeirdChars(ssa: SubtitleFile)
    requires ssa.Valid()
    modifies ssa.events
    ensures ssa.Valid()
    ensures Snapshot(ssa.events) == UnescapeAll(old(Snapshot(ssa.events)))
  {
    var evs := ssa.events;
    for i := 0 to |evs|
      invariant forall k :: 0 <= k < i ==> evs[k].text == Unescape(old(evs[k].text))
      invariant forall k :: i <= k < |evs| ==> evs[k].text == old(evs[k].text)
      invariant forall k :: 0 <= k < |evs| ==> evs[k].start == old(evs[k].start) && evs[k].end == old(evs[k].end)
    {
      forall k | 0 <= k < |evs| && k != i ensures evs[k] != evs[i] {
        DistinctAt(evs, k, i);
      }
      var event := evs[i];
      event.text := Unescape(event.text);
    }
  }

  // ===========================================================================
  // remove_short_events
  // ===========================================================================

  /** Positions, in order, of the events lasting at least `duration`. */
  function KeptIndices(vals: seq<EventValue>, duration: int): (idx: seq<nat>)
    ensures |idx| <= |vals|
    decreases |vals|
  {
    if |vals| == 0 then []
    else
      var last := |vals| - 1;
      KeptIndices(vals[..last], duration)
        + (if vals[last].end - vals[last].start >= duration then [last] else [])
  }

  /** The kept positions are exactly those of the long-enough events, in increasing order. */
  lemma {:induction false} KeptIndicesExact(vals: seq<EventValue>, duration: int)
    ensures Increasing(KeptIndices(vals, duration)) && Below(KeptIndices(vals, duration), |vals|)
    ensures forall k :: k in KeptIndices(vals, duration) <==>
      0 <= k < |vals| && vals[k].end - vals[k].start >= duration
    decreases |vals|
  {
    if |vals| > 0 {
      var last := |vals| - 1;
      var front := vals[..last];
      KeptIndicesExact(front, duration);
      assert forall k :: 0 <= k < last ==> front[k] == vals[k];
      if vals[last].end - vals[last].start >= duration {
        AppendIncreasing(KeptIndices(front, duration), last, last, |vals|);
      } else {
        assert KeptIndices(vals, duration) == KeptIndices(front, duration);
      }
    }
  }

  /** Filtering never adds events; it keeps them all exactly when none is too short. */
  lemma {:induction false} KeptIndicesLength(vals: seq<EventValue>, duration: int)
    ensures |KeptIndices(vals, duration)| <= |vals|
    ensures |KeptIndices(vals, duration)| == |vals| <==>
      forall k :: 0 <= k < |vals| ==> vals[k].end - vals[k].start >= duration
    decreases |vals|
  {
    if |vals| > 0 {
      var last := |vals| - 1;
      var front := vals[..last];
      KeptIndicesLength(front, duration);
      assert forall k :: 0 <= k < last ==> front[k] == vals[k];
    }
  }

  /** Replaces the event list by its events lasting at least `duration`. */
  method RemoveShortEvents(ssa: SubtitleFile, duration: int)
    requires ssa.Valid()
    modifies ssa
    ensures ssa.Valid()
    ensures Below(KeptIndices(old(Snapshot(ssa.events)), duration), |old(ssa.events)|)
    ensures ssa.events == Pick(old(ssa.events), KeptIndices(old(Snapshot(ssa.events)), duration))
  {
    var evs := ssa.events;
    ghost var vals := Snapshot(evs);
    var newEvents: seq<Event> := [];
    ghost var kept: seq<nat> := [];
    for i := 0 to |evs|
      invariant kept == KeptIndices(vals[..i], duration)
      invariant Below(kept, i)
      invariant newEvents == Pick(evs, kept)
    {
      KeptIndicesExact(vals[..i], duration);
      assert vals[..i + 1][..i] == vals[..i];
      var event := evs[i];
      if event.end - event.start >= duration {
        newEvents := newEvents + [event];
        kept := kept + [i];
      }
    }
    assert vals[..|evs|] == vals;
    KeptIndicesExact(vals, duration);
    PickDistinct(evs, kept);
    ssa.events := newEvents;
  }

  // ===========================================================================
  // merge_duplicates
  // ===========================================================================

  /** Initial value of the minimum search; a pool whose lengths all reach it fails the search. */
  const Sentinel: nat := 100000000

  /** The minimum search over a pool, scanning from the front: `(index, length)`
      of the strictly smallest tight length met so far, starting from
      `(0, Sentinel)`. */
  function Shortest(pool: seq<RegularText>): (res: (nat, nat))
    ensures res.1 <= Sentinel
    ensures res.1 < Sentinel ==> res.0 < |pool|
  {
    if |pool| == 0 then (0, Sentinel)
    else
      var last := |pool| - 1;
      var (m, l) := Shortest(pool[..last]);
      if pool[last].len < l then (last, pool[last].len) else (m, l)
  }

  /** The search finds the first shortest tight text, or reports the sentinel
      length, with index 0, when no tight length is below the sentinel. */
  lemma {:induction false} ShortestIs(pool: seq<RegularText>)
    ensures var (m, l) := Shortest(pool);
      l <= Sentinel &&
      (l < Sentinel ==> m < |pool| && pool[m].len == l) &&
      (l < Sentinel ==> forall k :: 0 <= k < |pool| ==> l <= pool[k].len) &&
      (l < Sentinel ==> forall k :: 0 <= k < m ==> l < pool[k].len) &&
      (l == Sentinel ==> m == 0 && forall k :: 0 <= k < |pool| ==> Sentinel <= pool[k].len)
  {
    if |pool| > 0 {
      var last := |pool| - 1;
      var front := pool[..last];
      ShortestIs(front);
      assert forall k :: 0 <= k < last ==> front[k] == pool[k];
    }
  }

  /** The inner loop of the flush: scans the pool for its first shortest text. */
  method FindShortest(pool: seq<RegularText>) returns (mini: nat, minlen: nat)
    ensures (mini, minlen) == Shortest(pool)
  {
    mini, minlen := 0, Sentinel;
    for i := 0 to |pool|
      invariant (mini, minlen) == Shortest(pool[..i])
    {
      assert pool[..i + 1][..i] == pool[..i];
      if pool[i].len < minlen {
        mini, minlen := i, pool[i].len;
      }
    }
    assert pool[..|pool|] == pool;
  }

  /** The normalised text of every event. */
  function Norms(vals: seq<EventValue>): seq<RegularText> {
    seq(|vals|, k requires 0 <= k < |vals| => Normalize(vals[k].text))
  }

  /** Event `k` matches the event before it, so it joins that event's pool. */
  predicate MatchesPrevious(r: seq<RegularText>, k: nat)
    requires 0 < k < |r|
  {
    FuzzyEq(r[k - 1], r[k])
  }

  /** Every event strictly inside `(lo, i)` matches its predecessor. */
  predicate Chained(r: seq<RegularText>, lo: nat, i: nat)
    requires i <= |r|
  {
    forall k :: lo < k < i ==> MatchesPrevious(r, k)
  }

  /** First position from `i` on that does not match its predecessor, or `|r|`. */
  function PoolEndFrom(r: seq<RegularText>, i: nat): (hi: nat)
    requires 0 < i <= |r|
    ensures i <= hi <= |r|
    decreases |r| - i
  {
    if i == |r| || !MatchesPrevious(r, i) then i else PoolEndFrom(r, i + 1)
  }

  /** End (exclusive) of the pool that starts at `lo`. */
  function PoolEnd(r: seq<RegularText>, lo: nat): (hi: nat)
    requires lo < |r|
    ensures lo < hi <= |r|
  {
    PoolEndFrom(r, lo + 1)
  }

  lemma {:induction false} PoolEndFromChained(r: seq<RegularText>, lo: nat, i: nat)
    requires lo < i <= |r| && Chained(r, lo, i)
    ensures Chained(r, lo, PoolEndFrom(r, i))
    ensures PoolEndFrom(r, i) < |r| ==> !MatchesPrevious(r, PoolEndFrom(r, i))
    decreases |r| - i
  {
    if i < |r| && MatchesPrevious(r, i) {
      PoolEndFromChained(r, lo, i + 1);
    }
  }

  /** A pool is the longest run from `lo` in which every event matches its predecessor. */
  lemma PoolEndChained(r: seq<RegularText>, lo: nat)
    requires lo < |r|
    ensures Chained(r, lo, PoolEnd(r, lo))
    ensures PoolEnd(r, lo) < |r| ==> !MatchesPrevious(r, PoolEnd(r, lo))
  {
    PoolEndFromChained(r, lo, lo + 1);
  }

  lemma {:induction false} PoolEndFromIs(r: seq<RegularText>, lo: nat, i: nat, hi: nat)
    requires lo < i <= hi <= |r| && Chained(r, lo, hi)
    requires hi < |r| ==> !MatchesPrevious(r, hi)
    ensures PoolEndFrom(r, i) == hi
    decreases hi - i
  {
    if i < hi {
      PoolEndFromIs(r, lo, i + 1, hi);
    }
  }

  /** Conversely, a matching run followed by a mismatch or the end is the pool. */
  lemma PoolEndIs(r: seq<RegularText>, lo: nat, hi: nat)
    requires lo < hi <= |r| && Chained(r, lo, hi)
    requires hi < |r| ==> !MatchesPrevious(r, hi)
    ensures PoolEnd(r, lo) == hi
  {
    PoolEndFromIs(r, lo, lo + 1, hi);
  }

  /** Closing the pool `[lo, hi)` whose representative is `m`, on the arrival of
      event `hi`: the representative takes `text` and the pool's span; when the
      last pooled text has a newline, the arriving event's start and the
      representative's end both become the last member's start, read after the
      representative's own start was rewritten; no other event changes. */
  function Flush(vals: seq<EventValue>, lo: nat, hi: nat, m: nat, text: string, newline: bool): (v: seq<EventValue>)
    requires lo <= m < hi < |vals|
    ensures |v| == |vals|
  {
    seq(|vals|, k requires 0 <= k < |vals| => Flushed(vals, lo, hi, m, text, newline, k))
  }

  /** Entry `k` after the flush. */
  function Flushed(vals: seq<EventValue>, lo: nat, hi: nat, m: nat, text: string, newline: bool, k: nat): (e: EventValue)
    requires lo <= m < hi < |vals| && k < |vals|
    ensures k != m && k != hi ==> e == vals[k]
    ensures k == m ==> e.start == vals[lo].start && e.text == text
    ensures k == hi ==> e.end == vals[hi].end && e.text == vals[hi].text
  {
    var cut := if m == hi - 1 then vals[lo].start else vals[hi - 1].start;
    if k == m then EventValue(vals[lo].start, if newline then cut else vals[hi - 1].end, text)
    else if k == hi && newline then vals[hi].(start := cut)
    else vals[k]
  }

  /** The flush as the sequence of field writes the source makes, one after the other. */
  function FlushWrites(vals: seq<EventValue>, lo: nat, hi: nat, m: nat, text: string, newline: bool): (v: seq<EventValue>)
    requires lo <= m < hi < |vals|
    ensures |v| == |vals|
  {
    var named := vals[m := vals[m].(text := text)];
    var started := named[m := named[m].(start := named[lo].start)];
    var spanned := started[m := started[m].(end := started[hi - 1].end)];
    if newline then
      var cut := spanned[hi - 1].start;
      var moved := spanned[hi := spanned[hi].(start := cut)];
      moved[m := moved[m].(end := cut)]
    else spanned
  }

  /** The writes made one after the other leave exactly the closed form. */
  lemma FlushWritesIsFlush(vals: seq<EventValue>, lo: nat, hi: nat, m: nat, text: string, newline: bool)
    requires lo <= m < hi < |vals|
    ensures FlushWrites(vals, lo, hi, m, text, newline) == Flush(vals, lo, hi, m, text, newline)
  {
    var w := FlushWrites(vals, lo, hi, m, text, newline);
    var f := Flush(vals, lo, hi, m, text, newline);
    forall k | 0 <= k < |vals| ensures w[k] == f[k] {
      assert f[k] == Flushed(vals, lo, hi, m, text, newline, k);
    }
  }

  datatype MergeResult =
    | Merged(vals: seq<EventValue>, out: seq<nat>)
    | Aborted(vals: seq<EventValue>)

  /** The merge from the pool starting at `lo` on, with the representatives found
      so far in `acc`. An interior pool is flushed; the trailing pool contributes
      its first event untouched; a pool whose minimum search fails aborts. */
  function MergeFrom(vals: seq<EventValue>, r: seq<RegularText>, lo: nat, acc: seq<nat>): (res: MergeResult)
    requires |vals| == |r| && lo <= |r|
    ensures |res.vals| == |vals|
    decreases |r| - lo, 1
  {
    if lo == |r| then Merged(vals, acc) else MergePool(vals, r, lo, acc)
  }

  /** The pool starting at `lo` and the merge after it. */
  function MergePool(vals: seq<EventValue>, r: seq<RegularText>, lo: nat, acc: seq<nat>): (res: MergeResult)
    requires |vals| == |r| && lo < |r|
    ensures |res.vals| == |vals|
    decreases |r| - lo, 0
  {
    var hi := PoolEnd(r, lo);
    if hi == |r| then Merged(vals, acc + [lo])
    else
      var found := Shortest(r[lo..hi]);
      if found.1 == Sentinel then Aborted(vals)
      else
        var m := lo + found.0;
        MergeFrom(Flush(vals, lo, hi, m, r[m].text, '\n' in r[hi - 1].text), r, hi, acc + [m])
  }

  /** The whole merge of a list of event values. */
  function MergeSpec(vals: seq<EventValue>): (res: MergeResult)
    ensures |res.vals| == |vals|
    ensures vals == [] ==> res == Merged([], [])
  {
    MergeFrom(vals, Norms(vals), 0, [])
  }

  /** A pool whose minimum search fails aborts the merge. */
  lemma MergeAbort(vals: seq<EventValue>, r: seq<RegularText>, lo: nat, hi: nat, acc: seq<nat>)
    requires |vals| == |r| && lo < hi < |r| && Chained(r, lo, hi) && !MatchesPrevious(r, hi)
    requires Shortest(r[lo..hi]).1 == Sentinel
    ensures MergeFrom(vals, r, lo, acc) == Aborted(vals)
  {
    PoolEndIs(r, lo, hi);
  }

  /** The bookkeeping of one flush in the merge loop: the pool `[lo, hi)` closed
      by event `hi` is flushed onto its first shortest member, and the merge
      goes on from `hi` towards the same result. */
  lemma CloseStep(vals: seq<EventValue>, vals0: seq<EventValue>, r: seq<RegularText>,
                  lo: nat, hi: nat, acc: seq<nat>, m: nat, target: MergeResult)
    requires |vals| == |r| && lo < hi < |r| && Chained(r, lo, hi) && !MatchesPrevious(r, hi)
    requires Increasing(acc) && Below(acc, lo)
    requires lo <= m && Shortest(r[lo..hi]).1 < Sentinel && Shortest(r[lo..hi]).0 == m - lo
    requires |vals0| == |vals| && forall k :: hi <= k < |vals| ==> vals[k] == vals0[k]
    requires MergeFrom(vals, r, lo, acc) == target
    ensures m < hi
    ensures var next := Flush(vals, lo, hi, m, r[m].text, '\n' in r[hi - 1].text);
      (forall k :: hi + 1 <= k < |vals| ==> next[k] == vals0[k]) &&
      MergeFrom(next, r, hi, acc + [m]) == target
    ensures Increasing(acc + [m]) && Below(acc + [m], hi)
    ensures Chained(r, hi, hi + 1)
  {
    PoolEndIs(r, lo, hi);
    MergeFlushAt(vals, r, lo, hi, acc, m - lo);
    AppendIncreasing(acc, lo, m, hi);
  }

  /** An interior pool is flushed onto its first shortest member and the merge
      goes on from the event that closed it: for a maximal matching run
      `[lo, hi)` and its first member `m` of minimal tight length below the
      sentinel, `m` is emitted and every field write of the flush is made. */
  lemma MergeFlush(vals: seq<EventValue>, r: seq<RegularText>, lo: nat, hi: nat, acc: seq<nat>, m: nat)
    requires |vals| == |r| && lo < hi < |r| && Chained(r, lo, hi) && !MatchesPrevious(r, hi)
    requires lo <= m < hi && r[m].len < Sentinel
    requires forall k :: lo <= k < hi ==> r[m].len <= r[k].len
    requires forall k :: lo <= k < m ==> r[m].len < r[k].len
    ensures MergeFrom(vals, r, lo, acc) ==
      MergeFrom(Flush(vals, lo, hi, m, r[m].text, '\n' in r[hi - 1].text), r, hi, acc + [m])
  {
    PoolEndIs(r, lo, hi);
    var pool := r[lo..hi];
    ShortestIs(pool);
    var (j, l) := Shortest(pool);
    assert pool[m - lo] == r[m];
    assert l < Sentinel;
    assert j < |pool| && pool[j] == r[lo + j];
    assert j == m - lo;
    MergeFlushAt(vals, r, lo, hi, acc, j);
  }

  /** The flush step of `MergePool` for the search result `mini`. */
  lemma MergeFlushAt(vals: seq<EventValue>, r: seq<RegularText>, lo: nat, hi: nat, acc: seq<nat>, mini: nat)
    requires |vals| == |r| && lo < hi < |r| && PoolEnd(r, lo) == hi
    requires Shortest(r[lo..hi]).1 < Sentinel && Shortest(r[lo..hi]).0 == mini
    ensures lo + mini < hi
    ensures MergeFrom(vals, r, lo, acc) ==
      MergeFrom(Flush(vals, lo, hi, lo + mini, r[lo + mini].text, '\n' in r[hi - 1].text), r, hi, acc + [lo + mini])
  {
    assert MergeFrom(vals, r, lo, acc) == MergePool(vals, r, lo, acc);
  }

  /** The trailing pool: its first event is appended and nothing is rewritten. */
  lemma MergeLast(vals: seq<EventValue>, r: seq<RegularText>, lo: nat, acc: seq<nat>)
    requires |vals| == |r| && lo < |r| && Chained(r, lo, |r|)
    ensures MergeFrom(vals, r, lo, acc) == Merged(vals, acc + [lo])
  {
    PoolEndIs(r, lo, |r|);
  }

  /** Number of pools from `lo` on. */
  function PoolCount(r: seq<RegularText>, lo: nat): nat
    requires lo <= |r|
    decreases |r| - lo
  {
    if lo == |r| then 0 else 1 + PoolCount(r, PoolEnd(r, lo))
  }

  /** Every pool holds at least one event: there are no more pools than events,
      and none exactly when no event is left. */
  lemma {:induction false} PoolCountBound(r: seq<RegularText>, lo: nat)
    requires lo <= |r|
    ensures PoolCount(r, lo) <= |r| - lo
    ensures PoolCount(r, lo) == 0 <==> lo == |r|
    decreases |r| - lo
  {
    if lo < |r| {
      PoolCountBound(r, PoolEnd(r, lo));
    }
  }

  /** A merge that completes emits one representative per pool after those in `acc`. */
  lemma {:induction false} MergeCount(vals: seq<EventValue>, r: seq<RegularText>, lo: nat, acc: seq<nat>)
    requires |vals| == |r| && lo <= |r|
    ensures MergeFrom(vals, r, lo, acc).Merged? ==>
      |MergeFrom(vals, r, lo, acc).out| == |acc| + PoolCount(r, lo) && acc <= MergeFrom(vals, r, lo, acc).out
    decreases |r| - lo
  {
    if lo < |r| {
      var hi := PoolEnd(r, lo);
      assert MergeFrom(vals, r, lo, acc) == MergePool(vals, r, lo, acc);
      if hi < |r| {
        var found := Shortest(r[lo..hi]);
        if found.1 < Sentinel {
          var m := lo + found.0;
          MergeCount(Flush(vals, lo, hi, m, r[m].text, '\n' in r[hi - 1].text), r, hi, acc + [m]);
        }
      }
    }
  }

  /** The representatives come out in event order, one inside each pool. */
  lemma {:induction false} MergeOrdered(vals: seq<EventValue>, r: seq<RegularText>, lo: nat, acc: seq<nat>)
    requires |vals| == |r| && lo <= |r| && Increasing(acc) && Below(acc, lo)
    ensures MergeFrom(vals, r, lo, acc).Merged? ==>
      Increasing(MergeFrom(vals, r, lo, acc).out) && Below(MergeFrom(vals, r, lo, acc).out, |r|)
    decreases |r| - lo
  {
    if lo < |r| {
      var hi := PoolEnd(r, lo);
      assert MergeFrom(vals, r, lo, acc) == MergePool(vals, r, lo, acc);
      if hi == |r| {
        AppendIncreasing(acc, lo, lo, |r|);
      } else {
        var found := Shortest(r[lo..hi]);
        if found.1 < Sentinel {
          var m := lo + found.0;
          AppendIncreasing(acc, lo, m, hi);
          MergeOrdered(Flush(vals, lo, hi, m, r[m].text, '\n' in r[hi - 1].text), r, hi, acc + [m]);
        }
      }
    } else {
      assert Below(acc, |r|);
    }
  }

  /** The minimum search cannot fail when every tight length is below the sentinel,
      so the merge then completes. */
  lemma {:induction false} MergeCompletes(vals: seq<EventValue>, r: seq<RegularText>, lo: nat, acc: seq<nat>)
    requires |vals| == |r| && lo <= |r|
    requires forall k :: lo <= k < |r| ==> r[k].len < Sentinel
    ensures MergeFrom(vals, r, lo, acc).Merged?
    decreases |r| - lo
  {
    if lo < |r| {
      var hi := PoolEnd(r, lo);
      assert MergeFrom(vals, r, lo, acc) == MergePool(vals, r, lo, acc);
      if hi < |r| {
        var pool := r[lo..hi];
        ShortestIs(pool);
        assert pool[0] == r[lo];
        var m := lo + Shortest(pool).0;
        MergeCompletes(Flush(vals, lo, hi, m, r[m].text, '\n' in r[hi - 1].text), r, hi, acc + [m]);
      }
    }
  }

  /** The merged list holds one event per pool: never more events than the
      input, none for no input, at least one otherwise, in input order. */
  lemma MergeShrinks(vals: seq<EventValue>)
    ensures vals == [] ==> MergeSpec(vals) == Merged([], [])
    ensures MergeSpec(vals).Merged? ==>
      |MergeSpec(vals).out| == PoolCount(Norms(vals), 0) <= |vals| &&
      (|vals| > 0 ==> |MergeSpec(vals).out| > 0) &&
      Increasing(MergeSpec(vals).out) && Below(MergeSpec(vals).out, |vals|)
  {
    var r := Norms(vals);
    MergeCount(vals, r, 0, []);
    PoolCountBound(r, 0);
    MergeOrdered(vals, r, 0, []);
  }

  lemma ChainedOne(r: seq<RegularText>, i: nat)
    requires i < |r|
    ensures Chained(r, i, i + 1)
  {
  }

  lemma ChainedExtend(r: seq<RegularText>, lo: nat, i: nat)
    requires lo < i < |r| && Chained(r, lo, i) && MatchesPrevious(r, i)
    ensures Chained(r, lo, i + 1)
  {
  }

  /** The event `i` joins the open pool `[lo, i)` when the pool is empty or its
      last text matches that of `i`. */
  lemma PoolGrows(r: seq<RegularText>, evs: seq<Event>, lo: nat, i: nat,
                  textPool: seq<RegularText>, eventPool: seq<Event>)
    requires |r| == |evs| && lo <= i < |r| && (i > 0 ==> lo < i && Chained(r, lo, i))
    requires textPool == r[lo..i] && eventPool == evs[lo..i]
    requires textPool == [] || FuzzyEq(textPool[|textPool| - 1], r[i])
    ensures Chained(r, lo, i + 1)
    ensures textPool + [r[i]] == r[lo..i + 1] && eventPool + [evs[i]] == evs[lo..i + 1]
  {
    SliceExtend(r, lo, i);
    SliceExtend(evs, lo, i);
    if textPool == [] {
      ChainedOne(r, i);
    } else {
      SliceLast(r, lo, i);
      ChainedExtend(r, lo, i);
    }
  }

  lemma SliceExtend<T>(s: seq<T>, lo: nat, i: nat)
    requires lo <= i < |s|
    ensures s[lo..i + 1] == s[lo..i] + [s[i]]
  {
  }

  lemma SliceLast<T>(s: seq<T>, lo: nat, i: nat)
    requires lo < i <= |s|
    ensures |s[lo..i]| == i - lo && s[lo..i][i - lo - 1] == s[i - 1]
  {
  }

  lemma SliceOne<T>(s: seq<T>, i: nat)
    requires i < |s|
    ensures s[i..i + 1] == [s[i]]
  {
  }

  /** Entry `k` of `r` is the normalised text of event value `k`. */
  ghost predicate NormalizedAt(r: seq<RegularText>, vals: seq<EventValue>, k: nat)
    requires k < |r| && k < |vals|
  {
    r[k] == Normalize(vals[k].text)
  }

  lemma NormsAt(vals: seq<EventValue>)
    ensures |Norms(vals)| == |vals|
    ensures forall k :: 0 <= k < |vals| ==> NormalizedAt(Norms(vals), vals, k)
  {
  }

  /** Groups consecutive matching events into pools and replaces each pool by one
      representative, rewriting event fields in place. `ok` is false when a
      pool's minimum search fails; the event list is then left as it was. */
  method MergeDuplicates(ssa: SubtitleFile) returns (ok: bool)
    requires ssa.Valid()
    modifies ssa, ssa.events
    ensures ssa.Valid()
    ensures ok == MergeSpec(old(Snapshot(ssa.events))).Merged?
    ensures Snapshot(old(ssa.events)) == MergeSpec(old(Snapshot(ssa.events))).vals
    ensures ok ==> Below(MergeSpec(old(Snapshot(ssa.events))).out, |old(ssa.events)|)
    ensures ok ==> ssa.events == Pick(old(ssa.events), MergeSpec(old(Snapshot(ssa.events))).out)
    ensures !ok ==> ssa.events == old(ssa.events)
  {
    var evs := ssa.events;
    ghost var vals0 := Snapshot(evs);
    NormsAt(vals0);
    var newEvents;
    ghost var out;
    ok, newEvents, out := MergeEvents(evs, vals0, Norms(vals0));
    if ok {
      ssa.events := newEvents;
    }
  }

  /** The loop of the merge over the event list, with `r` the events' normalised texts. */
  method MergeEvents(evs: seq<Event>, ghost vals0: seq<EventValue>, ghost r: seq<RegularText>)
    returns (ok: bool, newEvents: seq<Event>, ghost out: seq<nat>)
    requires Distinct(evs) && vals0 == Snapshot(evs) && |r| == |vals0|
    requires forall k :: 0 <= k < |vals0| ==> NormalizedAt(r, vals0, k)
    modifies evs
    ensures ok == MergeFrom(vals0, r, 0, []).Merged?
    ensures Snapshot(evs) == MergeFrom(vals0, r, 0, []).vals
    ensures ok ==> out == MergeFrom(vals0, r, 0, []).out && Below(out, |evs|)
    ensures ok ==> newEvents == Pick(evs, out) && Distinct(newEvents)
  {
    newEvents := [];
    var eventPool: seq<Event> := [];
    var textPool: seq<RegularText> := [];
    ghost var lo: nat := 0;
    out := [];
    ghost var cur := vals0;
    ghost var target := MergeFrom(vals0, r, 0, []);
    for i := 0 to |evs|
      invariant lo <= i && (i == 0 ==> lo == 0)
      invariant i > 0 ==> lo < i && Chained(r, lo, i)
      invariant textPool == r[lo..i] && eventPool == evs[lo..i]
      invariant Increasing(out) && Below(out, lo)
      invariant Below(out, |evs|) && newEvents == Pick(evs, out)
      invariant Snapshot(evs) == cur && |cur| == |evs|
      invariant forall k :: i <= k < |evs| ==> cur[k] == vals0[k]
      invariant MergeFrom(cur, r, lo, out) == target
    {
      var stepped;
      stepped, newEvents, eventPool, textPool, lo, cur, out :=
        MergeStep(evs, vals0, r, target, i, lo, cur, out, newEvents, eventPool, textPool);
      if !stepped {
        return false, [], out;
      }
    }
    if textPool != [] {
      MergeLast(cur, r, lo, out);
      PickAppend(evs, out, lo);
      AppendIncreasing(out, lo, lo, |evs|);
      newEvents := newEvents + [eventPool[0]];
      out := out + [lo];
    }
    PickDistinct(evs, out);
    ok := true;
  }

  /** One turn of the merge loop: event `i` joins the open pool `[lo, i)` or
      closes it; `ok` is false when closing the pool aborts the merge. */
  method MergeStep(evs: seq<Event>, ghost vals0: seq<EventValue>, ghost r: seq<RegularText>, ghost target: MergeResult,
                   i: nat, ghost lo: nat, ghost cur: seq<EventValue>, ghost out: seq<nat>,
                   newEvents: seq<Event>, eventPool: seq<Event>, textPool: seq<RegularText>)
    returns (ok: bool, newEvents': seq<Event>, eventPool': seq<Event>, textPool': seq<RegularText>,
             ghost lo': nat, ghost cur': seq<EventValue>, ghost out': seq<nat>)
    requires Distinct(evs) && |vals0| == |evs| && |r| == |evs| && i < |evs|
    requires forall k :: 0 <= k < |vals0| ==> NormalizedAt(r, vals0, k)
    requires lo <= i && (i == 0 ==> lo == 0)
    requires i > 0 ==> lo < i && Chained(r, lo, i)
    requires textPool == r[lo..i] && eventPool == evs[lo..i]
    requires Increasing(out) && Below(out, lo)
    requires Below(out, |evs|) && newEvents == Pick(evs, out)
    requires Snapshot(evs) == cur && |cur| == |evs|
    requires forall k :: i <= k < |evs| ==> cur[k] == vals0[k]
    requires MergeFrom(cur, r, lo, out) == target
    modifies evs
    ensures !ok ==> target.Aborted? && Snapshot(evs) == target.vals
    ensures ok ==> lo' <= i + 1 && (i + 1 == 0 ==> lo' == 0)
    ensures ok ==> (i + 1 > 0 ==> lo' < i + 1 && Chained(r, lo', i + 1))
    ensures ok ==> textPool' == r[lo'..i + 1] && eventPool' == evs[lo'..i + 1]
    ensures ok ==> Increasing(out') && Below(out', lo')
    ensures ok ==> Below(out', |evs|) && newEvents' == Pick(evs, out')
    ensures ok ==> Snapshot(evs) == cur' && |cur'| == |evs|
    ensures ok ==> forall k :: i + 1 <= k < |evs| ==> cur'[k] == vals0[k]
    ensures ok ==> MergeFrom(cur', r, lo', out') == target
  {
    ok, newEvents', eventPool', textPool', lo', cur', out' := true, newEvents, eventPool, textPool, lo, cur, out;
    var event, reg := ReadEvent(evs, i, vals0, r);
    if textPool == [] {
      PoolGrows(r, evs, lo, i, textPool, eventPool);
      textPool' := textPool + [reg];
      eventPool' := eventPool + [event];
    } else if FuzzyEq(textPool[|textPool| - 1], reg) {
      PoolGrows(r, evs, lo, i, textPool, eventPool);
      textPool' := textPool + [reg];
      eventPool' := eventPool + [event];
    } else {
      SliceLast(r, lo, i);
      var mini, minlen := FindShortest(textPool);
      if minlen == Sentinel {
        MergeAbort(cur, r, lo, i, out);
        return false, newEvents, eventPool, textPool, lo, cur, out;
      }
      newEvents', cur', out' := ClosePool(evs, vals0, r, target, lo, i, cur, out,
                                          newEvents, eventPool, textPool, event, mini);
      textPool' := [reg];
      eventPool' := [event];
      lo' := i;
    }
  }

  /** Reads the text of event `i` and normalises it. */
  method ReadEvent(evs: seq<Event>, i: nat, ghost vals: seq<EventValue>, ghost r: seq<RegularText>)
    returns (event: Event, reg: RegularText)
    requires i < |evs| && |vals| == |evs| && |r| == |evs| && Snapshot(evs)[i] == vals[i]
    requires forall k :: 0 <= k < |vals| ==> NormalizedAt(r, vals, k)
    ensures event == evs[i] && reg == r[i]
  {
    event := evs[i];
    var text := event.text;
    reg := Normalize(text);
    assert NormalizedAt(r, vals, i);
  }

  /** Closes the pool `[lo, i)` on the arrival of event `i`, which does not match
      the pool's last text: the pool is flushed onto its first shortest member,
      that member is appended to the output, and the merge goes on from `i`. */
  method ClosePool(evs: seq<Event>, ghost vals0: seq<EventValue>, ghost r: seq<RegularText>, ghost target: MergeResult,
                   ghost lo: nat, i: nat, ghost cur: seq<EventValue>, ghost out: seq<nat>,
                   newEvents: seq<Event>, eventPool: seq<Event>, textPool: seq<RegularText>, event: Event, mini: nat)
    returns (newEvents': seq<Event>, ghost cur': seq<EventValue>, ghost out': seq<nat>)
    requires Distinct(evs) && |r| == |evs| && |vals0| == |evs|
    requires lo < i < |evs| && Chained(r, lo, i) && !MatchesPrevious(r, i)
    requires textPool == r[lo..i] && eventPool == evs[lo..i] && event == evs[i]
    requires Shortest(r[lo..i]).1 < Sentinel && Shortest(r[lo..i]).0 == mini
    requires Increasing(out) && Below(out, lo) && Below(out, |evs|) && newEvents == Pick(evs, out)
    requires Snapshot(evs) == cur && |cur| == |evs|
    requires forall k :: i <= k < |evs| ==> cur[k] == vals0[k]
    requires MergeFrom(cur, r, lo, out) == target
    modifies evs
    ensures Increasing(out') && Below(out', i)
    ensures Below(out', |evs|) && newEvents' == Pick(evs, out')
    ensures Snapshot(evs) == cur' && |cur'| == |evs|
    ensures forall k :: i + 1 <= k < |evs| ==> cur'[k] == vals0[k]
    ensures MergeFrom(cur', r, i, out') == target
    ensures Chained(r, i, i + 1) && r[i..i + 1] == [r[i]] && evs[i..i + 1] == [evs[i]]
  {
    ghost var m: nat := lo + mini;
    CloseStep(cur, vals0, r, lo, i, out, m, target);
    PickAppend(evs, out, m);
    var newEvent := FlushPool(evs, r, lo, i, eventPool, textPool, mini, m, event);
    cur' := Flush(cur, lo, i, m, r[m].text, '\n' in r[i - 1].text);
    newEvents' := newEvents + [newEvent];
    out' := out + [m];
    SliceOne(r, i);
    SliceOne(evs, i);
  }

  /** The writes of one flush, as the source makes them on the pool's event objects. */
  method FlushPool(ghost evs: seq<Event>, ghost r: seq<RegularText>, ghost lo: nat, ghost hi: nat,
                   eventPool: seq<Event>, textPool: seq<RegularText>, mini: nat, ghost m: nat, event: Event)
    returns (newEvent: Event)
    requires Distinct(evs) && lo < hi < |evs| && mini < hi - lo && m == lo + mini
    requires eventPool == evs[lo..hi] && hi <= |r| && textPool == r[lo..hi] && event == evs[hi]
    modifies evs[m], evs[hi]
    ensures newEvent == evs[m]
    ensures Snapshot(evs) == Flush(old(Snapshot(evs)), lo, hi, m, r[m].text, '\n' in r[hi - 1].text)
  {
    ghost var vals := Snapshot(evs);
    DistinctAt(evs, m, hi);
    DistinctAt(evs, hi - 1, hi);
    if m != hi - 1 {
      DistinctAt(evs, m, hi - 1);
    }
    newEvent := eventPool[mini];
    newEvent.text := textPool[mini].text;
    newEvent.start := eventPool[0].start;
    newEvent.end := eventPool[|eventPool| - 1].end;
    if '\n' in textPool[|textPool| - 1].text {
      event.start := eventPool[|eventPool| - 1].start;
      newEvent.end := eventPool[|eventPool| - 1].start;
    }
    ghost var want := Flush(vals, lo, hi, m, r[m].text, '\n' in r[hi - 1].text);
    forall k | 0 <= k < |evs| ensures Snapshot(evs)[k] == want[k] {
      if k != m {
        DistinctAt(evs, k, m);
      }
      if k != hi {
        DistinctAt(evs, k, hi);
      }
    }
  }
}
