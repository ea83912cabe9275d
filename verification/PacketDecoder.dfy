/** The offline decoder: TCP reassembly and the header scan. */
module PacketDecoder {
  import opened Bytes
  import opened Framing

  // ---------------------------------------------------------------- reassembly

  datatype Segment = Segment(sequence: int, payload: seq<byte>)

  /** A contiguous stretch of sequence numbers with its bytes. */
  datatype Run = Run(start: int, bytes: seq<byte>)

  function End(r: Run): int {
    r.start + |r.bytes|
  }

  predicate Covers(s: Segment, p: int) {
    s.sequence <= p < s.sequence + |s.payload|
  }

  /** A dictionary in insertion order: no sequence number twice. */
  ghost predicate DistinctKeys(segments: seq<Segment>) {
    forall i, j :: 0 <= i < j < |segments| ==> segments[i].sequence != segments[j].sequence
  }

  ghost predicate Ascending(items: seq<Segment>) {
    forall i, j :: 0 <= i < j < |items| ==> items[i].sequence < items[j].sequence
  }

  /** `dict.setdefault`: the first payload seen for a sequence number stays. */
  function SetDefault(segments: seq<Segment>, s: Segment): seq<Segment> {
    if exists i :: 0 <= i < |segments| && segments[i].sequence == s.sequence then segments else segments + [s]
  }

  function Collect(capture: seq<Segment>): seq<Segment> {
    if capture == [] then [] else SetDefault(Collect(capture[..|capture| - 1]), capture[|capture| - 1])
  }

  /** The first segment captured with its sequence number. */
  ghost predicate FirstCaptured(capture: seq<Segment>, s: Segment) {
    exists k :: 0 <= k < |capture| && capture[k] == s && forall j :: 0 <= j < k ==> capture[j].sequence != s.sequence
  }

  lemma FirstCapturedStep(capture: seq<Segment>, s: Segment)
    requires capture != []
    ensures var front, last := capture[..|capture| - 1], capture[|capture| - 1];
      FirstCaptured(capture, s) <==>
        FirstCaptured(front, s) || (s == last && forall t :: t in front ==> t.sequence != s.sequence)
  {
    var front, last := capture[..|capture| - 1], capture[|capture| - 1];
    if FirstCaptured(front, s) {
      var k :| 0 <= k < |front| && front[k] == s && forall j :: 0 <= j < k ==> front[j].sequence != s.sequence;
      assert capture[k] == s && forall j :: 0 <= j < k ==> capture[j] == front[j];
    }
    if s == last && forall t :: t in front ==> t.sequence != s.sequence {
      assert forall j :: 0 <= j < |front| ==> capture[j] == front[j] && front[j] in front;
    }
    if FirstCaptured(capture, s) {
      var k :| 0 <= k < |capture| && capture[k] == s && forall j :: 0 <= j < k ==> capture[j].sequence != s.sequence;
      if k < |front| {
        assert front[k] == s && forall j :: 0 <= j < k ==> front[j] == capture[j];
      }
    }
  }

  lemma {:induction false} SomeFirst(capture: seq<Segment>, sequence: int)
    requires exists t :: t in capture && t.sequence == sequence
    ensures exists s :: FirstCaptured(capture, s) && s.sequence == sequence
  {
    var front, last := capture[..|capture| - 1], capture[|capture| - 1];
    if t :| t in front && t.sequence == sequence {
      SomeFirst(front, sequence);
      var s :| FirstCaptured(front, s) && s.sequence == sequence;
      FirstCapturedStep(capture, s);
    } else {
      assert capture == front + [last];
      FirstCapturedStep(capture, last);
    }
  }

  /** The segment table holds, for every sequence number captured, the first payload and nothing else. */
  lemma {:induction false} CollectKeepsTheFirst(capture: seq<Segment>)
    ensures DistinctKeys(Collect(capture))
    ensures forall s :: s in Collect(capture) <==> FirstCaptured(capture, s)
  {
    if capture != [] {
      var front, last := capture[..|capture| - 1], capture[|capture| - 1];
      CollectKeepsTheFirst(front);
      var before := Collect(front);
      forall s ensures s in Collect(capture) <==> FirstCaptured(capture, s) {
        FirstCapturedStep(capture, s);
        if s == last {
          if exists t :: t in front && t.sequence == last.sequence {
            SomeFirst(front, last.sequence);
            var first :| FirstCaptured(front, first) && first.sequence == last.sequence;
            assert first in before;
          } else {
            forall i | 0 <= i < |before| ensures before[i].sequence != last.sequence {
              assert before[i] in before;
              var k :| 0 <= k < |front| && front[k] == before[i];
              assert front[k] in front;
            }
          }
        }
      }
    }
  }

  function InsertItem(items: seq<Segment>, s: Segment): seq<Segment> {
    if items == [] || s.sequence < items[0].sequence then [s] + items
    else [items[0]] + InsertItem(items[1..], s)
  }

  /** `sorted(segments.items())`. */
  function Sorted(segments: seq<Segment>): seq<Segment> {
    if segments == [] then [] else InsertItem(Sorted(segments[1..]), segments[0])
  }

  lemma {:induction false} InsertKeepsOrder(items: seq<Segment>, s: Segment)
    requires Ascending(items) && forall t :: t in items ==> t.sequence != s.sequence
    ensures Ascending(InsertItem(items, s))
    ensures forall t :: t in InsertItem(items, s) <==> t == s || t in items
  {
    if items != [] && s.sequence >= items[0].sequence {
      assert items[0] in items;
      InsertKeepsOrder(items[1..], s);
      var rest := InsertItem(items[1..], s);
      assert forall i :: 0 <= i < |rest| ==> rest[i] in rest;
      assert forall t :: t in items <==> t == items[0] || t in items[1..];
    }
  }

  lemma {:induction false} SortedIsAscending(segments: seq<Segment>)
    requires DistinctKeys(segments)
    ensures Ascending(Sorted(segments))
    ensures forall s :: s in Sorted(segments) <==> s in segments
  {
    if segments != [] {
      SortedIsAscending(segments[1..]);
      InsertKeepsOrder(Sorted(segments[1..]), segments[0]);
      assert forall s :: s in segments <==> s == segments[0] || s in segments[1..];
    }
  }

  /** Nonempty runs in increasing order with a gap between neighbours. */
  ghost predicate Separated(runs: seq<Run>) {
    && (forall i :: 0 <= i < |runs| ==> runs[i].bytes != [])
    && (forall i, j :: 0 <= i < j < |runs| ==> End(runs[i]) < runs[j].start)
  }

  predicate InRun(r: Run, p: int) {
    r.start <= p < End(r)
  }

  /** The first of the first n items, hence the one of smallest start, that covers p. */
  ghost predicate FirstCover(items: seq<Segment>, n: nat, i: int, p: int)
    requires n <= |items|
  {
    0 <= i < n && Covers(items[i], p) && forall j :: 0 <= j < i ==> !Covers(items[j], p)
  }

  /** The runs made of the first n items. */
  ghost predicate Merged(items: seq<Segment>, n: nat, runs: seq<Run>)
    requires n <= |items|
  {
    && Separated(runs)
    && (forall i, p :: 0 <= i < n && Covers(items[i], p) ==> exists r :: 0 <= r < |runs| && InRun(runs[r], p))
    && (forall r, p :: 0 <= r < |runs| && InRun(runs[r], p) ==>
          exists i :: FirstCover(items, n, i, p) && runs[r].bytes[p - runs[r].start] == items[i].payload[p - items[i].sequence])
  }

  function Extend(r: Run, s: Segment): Run
    requires s.sequence <= End(r)
  {
    var overlap := End(r) - s.sequence;
    if overlap < |s.payload| then Run(r.start, r.bytes + s.payload[overlap..]) else r
  }

  lemma MergeEmpty(items: seq<Segment>, n: nat, runs: seq<Run>)
    requires n < |items| && Merged(items, n, runs) && items[n].payload == []
    ensures Merged(items, n + 1, runs)
  {
    forall r, p | 0 <= r < |runs| && InRun(runs[r], p)
      ensures exists i :: FirstCover(items, n + 1, i, p) && runs[r].bytes[p - runs[r].start] == items[i].payload[p - items[i].sequence]
    {
      var i :| FirstCover(items, n, i, p) && runs[r].bytes[p - runs[r].start] == items[i].payload[p - items[i].sequence];
      assert FirstCover(items, n + 1, i, p);
    }
  }

  /** Nothing so far reaches beyond the end of the last run. */
  lemma NothingBeyond(items: seq<Segment>, n: nat, runs: seq<Run>, i: int, p: int)
    requires n <= |items| && Merged(items, n, runs) && 0 <= i < n && Covers(items[i], p)
    ensures runs != [] && p < End(runs[|runs| - 1])
  {
    var r :| 0 <= r < |runs| && InRun(runs[r], p);
    if r < |runs| - 1 {
      assert End(runs[r]) < runs[|runs| - 1].start;
    }
  }

  lemma BeyondIsNew(items: seq<Segment>, n: nat, runs: seq<Run>, p: int)
    requires n < |items| && Merged(items, n, runs) && Covers(items[n], p)
    requires runs == [] || End(runs[|runs| - 1]) <= p
    ensures FirstCover(items, n + 1, n, p)
  {
    forall j | 0 <= j < n ensures !Covers(items[j], p) {
      if Covers(items[j], p) {
        NothingBeyond(items, n, runs, j, p);
      }
    }
  }

  lemma MergeGap(items: seq<Segment>, n: nat, runs: seq<Run>)
    requires n < |items| && Merged(items, n, runs) && items[n].payload != []
    requires runs == [] || items[n].sequence > End(runs[|runs| - 1])
    ensures Merged(items, n + 1, runs + [Run(items[n].sequence, items[n].payload)])
  {
    var s := items[n];
    var all := runs + [Run(s.sequence, s.payload)];
    forall i, p | 0 <= i < n + 1 && Covers(items[i], p)
      ensures exists r :: 0 <= r < |all| && InRun(all[r], p)
    {
      if i == n {
        assert InRun(all[|runs|], p);
      } else {
        var r :| 0 <= r < |runs| && InRun(runs[r], p);
        assert InRun(all[r], p);
      }
    }
    forall r, p | 0 <= r < |all| && InRun(all[r], p)
      ensures exists i :: FirstCover(items, n + 1, i, p) && all[r].bytes[p - all[r].start] == items[i].payload[p - items[i].sequence]
    {
      if r < |runs| {
        assert all[r] == runs[r];
        var i :| FirstCover(items, n, i, p) && runs[r].bytes[p - runs[r].start] == items[i].payload[p - items[i].sequence];
        assert FirstCover(items, n + 1, i, p);
      } else {
        BeyondIsNew(items, n, runs, p);
      }
    }
    forall i, j | 0 <= i < j < |all| ensures End(all[i]) < all[j].start {
      if j == |runs| && i < |runs| - 1 {
        assert End(runs[i]) < runs[|runs| - 1].start;
      }
    }
  }

  lemma MergeOverlap(items: seq<Segment>, n: nat, runs: seq<Run>)
    requires n < |items| && Merged(items, n, runs) && items[n].payload != []
    requires runs != [] && items[n].sequence <= End(runs[|runs| - 1])
    requires runs[|runs| - 1].start <= items[n].sequence
    ensures Merged(items, n + 1, runs[..|runs| - 1] + [Extend(runs[|runs| - 1], items[n])])
  {
    var s, last := items[n], runs[|runs| - 1];
    var grown := Extend(last, s);
    var all := runs[..|runs| - 1] + [grown];
    assert forall r :: 0 <= r < |runs| - 1 ==> all[r] == runs[r];
    forall i, p | 0 <= i < n + 1 && Covers(items[i], p)
      ensures exists r :: 0 <= r < |all| && InRun(all[r], p)
    {
      OverlapCover(items, n, runs, all, i, p);
    }
    forall r, p | 0 <= r < |all| && InRun(all[r], p)
      ensures exists i :: FirstCover(items, n + 1, i, p) && all[r].bytes[p - all[r].start] == items[i].payload[p - items[i].sequence]
    {
      OverlapByte(items, n, runs, all[r], r, p);
    }
  }

  lemma OverlapCover(items: seq<Segment>, n: nat, runs: seq<Run>, all: seq<Run>, i: nat, p: int)
    requires n < |items| && Merged(items, n, runs) && runs != []
    requires items[n].sequence <= End(runs[|runs| - 1]) && runs[|runs| - 1].start <= items[n].sequence
    requires all == runs[..|runs| - 1] + [Extend(runs[|runs| - 1], items[n])]
    requires i <= n && Covers(items[i], p)
    ensures exists r :: 0 <= r < |all| && InRun(all[r], p)
  {
    if i == n {
      assert InRun(all[|runs| - 1], p);
    } else {
      var r :| 0 <= r < |runs| && InRun(runs[r], p);
      assert all[r] == if r < |runs| - 1 then runs[r] else Extend(runs[r], items[n]);
      assert InRun(all[r], p);
    }
  }

  /** Old bytes keep their segment; the new ones lie beyond everything covered so far. */
  lemma OverlapByte(items: seq<Segment>, n: nat, runs: seq<Run>, run: Run, r: nat, p: int)
    requires n < |items| && Merged(items, n, runs) && r < |runs|
    requires items[n].sequence <= End(runs[|runs| - 1]) && runs[|runs| - 1].start <= items[n].sequence
    requires run == if r < |runs| - 1 then runs[r] else Extend(runs[r], items[n])
    requires InRun(run, p)
    ensures exists i :: FirstCover(items, n + 1, i, p) && run.bytes[p - run.start] == items[i].payload[p - items[i].sequence]
  {
    if InRun(runs[r], p) {
      assert run.start == runs[r].start && run.bytes[p - run.start] == runs[r].bytes[p - runs[r].start];
      var i :| FirstCover(items, n, i, p) && runs[r].bytes[p - runs[r].start] == items[i].payload[p - items[i].sequence];
      assert FirstCover(items, n + 1, i, p);
    } else {
      var s, last := items[n], runs[r];
      forall j | 0 <= j < n ensures !Covers(items[j], p) {
        if Covers(items[j], p) {
          NothingBeyond(items, n, runs, j, p);
        }
      }
      assert FirstCover(items, n + 1, n, p);
      assert run.bytes[p - run.start] == s.payload[End(last) - s.sequence..][p - End(last)];
    }
  }

  // What the caller is promised, in terms of the dictionary alone.

  predicate CoveredBy(segments: seq<Segment>, s: Segment, p: int) {
    s in segments && Covers(s, p)
  }

  /** The covering segment of smallest start. */
  ghost predicate FirstCovering(segments: seq<Segment>, s: Segment, p: int) {
    CoveredBy(segments, s, p) && forall other :: CoveredBy(segments, other, p) ==> other == s || s.sequence < other.sequence
  }

  /** The maximal covered stretches in increasing order, each byte from the covering segment of smallest start. */
  ghost predicate Reassembles(segments: seq<Segment>, runs: seq<Run>) {
    && Separated(runs)
    && (forall s, p :: CoveredBy(segments, s, p) ==> exists r :: 0 <= r < |runs| && InRun(runs[r], p))
    && (forall r, p :: 0 <= r < |runs| && InRun(runs[r], p) ==>
          exists s :: FirstCovering(segments, s, p) && runs[r].bytes[p - runs[r].start] == s.payload[p - s.sequence])
  }

  function BytesOf(runs: seq<Run>): (chunks: seq<seq<byte>>)
    ensures |chunks| == |runs|
  {
    seq(|runs|, r requires 0 <= r < |runs| => runs[r].bytes)
  }

  lemma MergedReassembles(segments: seq<Segment>, items: seq<Segment>, runs: seq<Run>)
    requires Ascending(items) && (forall s :: s in items <==> s in segments) && Merged(items, |items|, runs)
    ensures Reassembles(segments, runs)
  {
    forall s, p | CoveredBy(segments, s, p)
      ensures exists r :: 0 <= r < |runs| && InRun(runs[r], p)
    {
      var i :| 0 <= i < |items| && items[i] == s;
      assert Covers(items[i], p);
    }
    forall r, p | 0 <= r < |runs| && InRun(runs[r], p)
      ensures exists s :: FirstCovering(segments, s, p) && runs[r].bytes[p - runs[r].start] == s.payload[p - s.sequence]
    {
      var i :| FirstCover(items, |items|, i, p)
            && runs[r].bytes[p - runs[r].start] == items[i].payload[p - items[i].sequence];
      var s := items[i];
      forall other | CoveredBy(segments, other, p)
        ensures other == s || s.sequence < other.sequence
      {
        var j :| 0 <= j < |items| && items[j] == other;
        assert Covers(items[j], p);
      }
      assert FirstCovering(segments, s, p);
    }
  }

  /** The merge loop; where the chunks start is known only to the proof. */
  method TcpChunks(segments: seq<Segment>) returns (chunks: seq<seq<byte>>)
    requires DistinctKeys(segments)
    ensures exists runs :: Reassembles(segments, runs) && chunks == BytesOf(runs)
  {
    var items := Sorted(segments);
    SortedIsAscending(segments);
    chunks := [];
    ghost var done: seq<Run> := [];
    ghost var start := 0;
    var current: seq<byte> := [];
    var nextSequence: Option<int> := None;
    for n := 0 to |items|
      invariant Tracks(items, n, done, start, current, nextSequence)
      invariant chunks == BytesOf(done)
    {
      var s := items[n];
      if s.payload == [] {
        MergeEmpty(items, n, RunsOf(done, start, current, nextSequence));
        continue;
      }
      if nextSequence.None? || s.sequence > nextSequence.value {
        TrackGap(items, n, done, start, current, nextSequence);
        done := RunsOf(done, start, current, nextSequence);
        if current != [] {
          chunks := chunks + [current];
        }
        start, current := s.sequence, s.payload;
        nextSequence := Some(s.sequence + |s.payload|);
        continue;
      }
      TrackOverlap(items, n, done, start, current, nextSequence);
      var overlap := nextSequence.value - s.sequence;
      if overlap < |s.payload| {
        current := current + s.payload[overlap..];
        nextSequence := Some(nextSequence.value + |s.payload| - overlap);
      }
    }
    ghost var runs := RunsOf(done, start, current, nextSequence);
    TrackEnd(segments, items, done, start, current, nextSequence);
    if current != [] {
      chunks := chunks + [current];
    }
    assert Reassembles(segments, runs) && chunks == BytesOf(runs);
  }

  /** The finished runs and the one in progress. */
  function RunsOf(done: seq<Run>, start: int, current: seq<byte>, next: Option<int>): seq<Run> {
    if next.None? then [] else done + [Run(start, current)]
  }

  ghost predicate Tracks(items: seq<Segment>, n: int, done: seq<Run>, start: int, current: seq<byte>, next: Option<int>) {
    && 0 <= n <= |items|
    && Ascending(items)
    && Merged(items, n, RunsOf(done, start, current, next))
    && (next.None? ==> done == [] && current == [])
    && (next.Some? ==> current != [] && next.value == start + |current| && n > 0 && start <= items[n - 1].sequence)
  }

  lemma TrackOverlap(items: seq<Segment>, n: int, done: seq<Run>, start: int, current: seq<byte>, next: Option<int>)
    requires Tracks(items, n, done, start, current, next) && n < |items|
    requires items[n].payload != [] && next.Some? && items[n].sequence <= next.value
    ensures var overlap := next.value - items[n].sequence;
      && 0 <= overlap
      && if overlap < |items[n].payload|
         then Tracks(items, n + 1, done, start, current + items[n].payload[overlap..],
                     Some(next.value + |items[n].payload| - overlap))
         else Tracks(items, n + 1, done, start, current, next)
  {
    var s, last := items[n], Run(start, current);
    assert start <= s.sequence by {
      assert items[n - 1].sequence < items[n].sequence;
    }
    LastOf(done, last);
    MergeOverlap(items, n, done + [last]);
    var overlap := next.value - s.sequence;
    assert Extend(last, s) == if overlap < |s.payload| then Run(start, current + s.payload[overlap..]) else last;
  }

  lemma LastOf(done: seq<Run>, last: Run)
    ensures var runs := done + [last]; runs[|runs| - 1] == last && runs[..|runs| - 1] == done
  {
  }

  lemma BytesOfRuns(done: seq<Run>, start: int, current: seq<byte>, next: Option<int>)
    requires next.None? ==> done == [] && current == []
    requires next.Some? ==> current != []
    ensures BytesOf(RunsOf(done, start, current, next)) == BytesOf(done) + (if current != [] then [current] else [])
  {
  }

  lemma TrackEnd(segments: seq<Segment>, items: seq<Segment>, done: seq<Run>, start: int, current: seq<byte>,
                 next: Option<int>)
    requires Tracks(items, |items|, done, start, current, next) && forall s :: s in items <==> s in segments
    ensures var runs := RunsOf(done, start, current, next);
      && Reassembles(segments, runs)
      && BytesOf(runs) == BytesOf(done) + (if current != [] then [current] else [])
  {
    MergedReassembles(segments, items, RunsOf(done, start, current, next));
    BytesOfRuns(done, start, current, next);
  }

  lemma TrackGap(items: seq<Segment>, n: int, done: seq<Run>, start: int, current: seq<byte>, next: Option<int>)
    requires Tracks(items, n, done, start, current, next) && n < |items|
    requires items[n].payload != [] && (next.None? || items[n].sequence > next.value)
    ensures var s, runs := items[n], RunsOf(done, start, current, next);
      && Tracks(items, n + 1, runs, s.sequence, s.payload, Some(s.sequence + |s.payload|))
      && BytesOf(runs) == BytesOf(done) + (if current != [] then [current] else [])
  {
    MergeGap(items, n, RunsOf(done, start, current, next));
    BytesOfRuns(done, start, current, next);
  }

  /** When the segments are slices of one stream, every chunk is a slice of that stream. */
  lemma SlicesGiveTheStream(segments: seq<Segment>, runs: seq<Run>, stream: int -> byte)
    requires Reassembles(segments, runs)
    requires forall s, p :: CoveredBy(segments, s, p) ==> s.payload[p - s.sequence] == stream(p)
    ensures forall r, p :: 0 <= r < |runs| && InRun(runs[r], p) ==> runs[r].bytes[p - runs[r].start] == stream(p)
  {
    forall r, p | 0 <= r < |runs| && InRun(runs[r], p)
      ensures runs[r].bytes[p - runs[r].start] == stream(p)
    {
      var s :| FirstCovering(segments, s, p) && runs[r].bytes[p - runs[r].start] == s.payload[p - s.sequence];
      assert CoveredBy(segments, s, p);
    }
  }

  /** The promise leaves no choice: only one list of runs reassembles a dictionary. */
  lemma ReassemblyIsUnique(segments: seq<Segment>, first: seq<Run>, second: seq<Run>)
    requires Reassembles(segments, first) && Reassembles(segments, second)
    ensures first == second
  {
    forall p ensures InSome(first, p) <==> InSome(second, p) {
      SameCover(segments, first, second, p);
      SameCover(segments, second, first, p);
    }
    forall i, j, p | 0 <= i < |first| && 0 <= j < |second| && InRun(first[i], p) && InRun(second[j], p)
      ensures first[i].bytes[p - first[i].start] == second[j].bytes[p - second[j].start]
    {
      SameByte(segments, first, second, i, j, p);
    }
    SameRuns(first, second);
  }

  lemma SameByte(segments: seq<Segment>, first: seq<Run>, second: seq<Run>, i: nat, j: nat, p: int)
    requires Reassembles(segments, first) && Reassembles(segments, second)
    requires i < |first| && j < |second| && InRun(first[i], p) && InRun(second[j], p)
    ensures first[i].bytes[p - first[i].start] == second[j].bytes[p - second[j].start]
  {
    var s :| FirstCovering(segments, s, p) && first[i].bytes[p - first[i].start] == s.payload[p - s.sequence];
    var t :| FirstCovering(segments, t, p) && second[j].bytes[p - second[j].start] == t.payload[p - t.sequence];
    assert s == t;
  }

  ghost predicate InSome(runs: seq<Run>, p: int) {
    exists r :: 0 <= r < |runs| && InRun(runs[r], p)
  }

  lemma SameCover(segments: seq<Segment>, first: seq<Run>, second: seq<Run>, p: int)
    requires Reassembles(segments, first) && Reassembles(segments, second)
    ensures InSome(first, p) ==> InSome(second, p)
  {
    if InSome(first, p) {
      var r :| 0 <= r < |first| && InRun(first[r], p);
      var s :| FirstCovering(segments, s, p) && first[r].bytes[p - first[r].start] == s.payload[p - s.sequence];
      assert CoveredBy(segments, s, p);
    }
  }

  lemma {:induction false} SameRuns(first: seq<Run>, second: seq<Run>)
    requires Separated(first) && Separated(second)
    requires forall p :: InSome(first, p) <==> InSome(second, p)
    requires forall i, j, p :: 0 <= i < |first| && 0 <= j < |second| && InRun(first[i], p) && InRun(second[j], p) ==>
      first[i].bytes[p - first[i].start] == second[j].bytes[p - second[j].start]
    ensures first == second
    decreases |first|
  {
    if first == [] || second == [] {
      if first != [] {
        assert InRun(first[0], first[0].start);
        assert InSome(first, first[0].start);
      }
      if second != [] {
        assert InRun(second[0], second[0].start);
        assert InSome(second, second[0].start);
      }
    } else {
      HeadsMeet(first, second);
      HeadsMeet(second, first);
      assert first[0].bytes == second[0].bytes by {
        forall i | 0 <= i < |first[0].bytes|
          ensures first[0].bytes[i] == second[0].bytes[i]
        {
          assert InRun(first[0], first[0].start + i) && InRun(second[0], first[0].start + i);
        }
      }
      forall p ensures InSome(first[1..], p) <==> InSome(second[1..], p) {
        TailCover(first, p);
        TailCover(second, p);
      }
      SameRuns(first[1..], second[1..]);
      assert first == [first[0]] + first[1..] && second == [second[0]] + second[1..];
    }
  }

  /** The first runs start together, and the first does not reach beyond the second. */
  lemma HeadsMeet(first: seq<Run>, second: seq<Run>)
    requires Separated(first) && Separated(second) && first != [] && second != []
    requires forall p :: InSome(first, p) <==> InSome(second, p)
    ensures second[0].start <= first[0].start
    ensures second[0].start == first[0].start ==> End(first[0]) <= End(second[0])
  {
    var p := first[0].start;
    assert InRun(first[0], p);
    assert InSome(first, p);
    var r :| 0 <= r < |second| && InRun(second[r], p);
    assert second[0].start <= second[r].start by {
      if r > 0 {
        assert End(second[0]) < second[r].start;
      }
    }
    EndUncovered(second);
    assert !InSome(first, End(second[0]));
    assert !InRun(first[0], End(second[0]));
  }

  /** The gap after the first run. */
  lemma EndUncovered(runs: seq<Run>)
    requires Separated(runs) && runs != []
    ensures !InSome(runs, End(runs[0]))
  {
    forall r | 0 <= r < |runs|
      ensures !InRun(runs[r], End(runs[0]))
    {
      if r > 0 {
        assert End(runs[0]) < runs[r].start;
      }
    }
  }

  lemma TailCover(runs: seq<Run>, p: int)
    requires Separated(runs) && runs != []
    ensures InSome(runs[1..], p) <==> InSome(runs, p) && p > End(runs[0])
  {
    if InSome(runs[1..], p) {
      var r :| 0 <= r < |runs[1..]| && InRun(runs[1..][r], p);
      assert InRun(runs[r + 1], p) && End(runs[0]) < runs[r + 1].start;
    }
    if InSome(runs, p) && p > End(runs[0]) {
      var r :| 0 <= r < |runs| && InRun(runs[r], p);
      assert r > 0;
      assert InRun(runs[1..][r - 1], p);
    }
  }

  // ---------------------------------------------------------------- header scan

  const COMMAND_NAMES: set<int> := {
    0x00, 0x01, 0x03, 0x07, 0x67, 0x68, 0x69, 0x6A, 0x6C, 0x6D, 0x73, 0x74, 0x77, 0x78, 0x7B,
    0xC8, 0xC9, 0xCA, 0xCB, 0xCC, 0xCD, 0xCE, 0x258, 0x259, 0x25C, 0x25F, 0x262, 0x265, 0x267, 0x268,
    0x2BC, 0x2BD, 0x2BE }

  datatype PacketHeader = PacketHeader(command: int, payloadLength: int, offset: int)

  /** Commands and lengths of packets laid end to end from an offset. */
  function HeadersOf(packets: seq<BasePacket>, offset: int): seq<PacketHeader> {
    if packets == [] then []
    else [PacketHeader(packets[0].command, |packets[0].payload|, offset)]
         + HeadersOf(packets[1..], offset + HEADER_LENGTH + |packets[0].payload|)
  }

  /** The packets before the first one whose command is not wanted. */
  function Reported(packets: seq<BasePacket>, includeUnknown: bool): seq<BasePacket> {
    if packets == [] || !(includeUnknown || packets[0].command in COMMAND_NAMES) then []
    else [packets[0]] + Reported(packets[1..], includeUnknown)
  }

  lemma {:induction false} AllReported(packets: seq<BasePacket>)
    ensures Reported(packets, true) == packets
  {
    if packets != [] {
      AllReported(packets[1..]);
    }
  }

  /** What is reported is the longest first part in which every command is wanted. */
  lemma {:induction false} ReportedIsLongest(packets: seq<BasePacket>, includeUnknown: bool)
    ensures var n := |Reported(packets, includeUnknown)|;
      && n <= |packets| && Reported(packets, includeUnknown) == packets[..n]
      && (forall i :: 0 <= i < n ==> includeUnknown || packets[i].command in COMMAND_NAMES)
      && (n < |packets| ==> !includeUnknown && packets[n].command !in COMMAND_NAMES)
  {
    if packets != [] && (includeUnknown || packets[0].command in COMMAND_NAMES) {
      ReportedIsLongest(packets[1..], includeUnknown);
      var n := |Reported(packets[1..], includeUnknown)|;
      assert packets[..n + 1] == [packets[0]] + packets[1..][..n];
      assert forall i :: 1 <= i < |packets| ==> packets[i] == packets[1..][i - 1];
    }
  }

  /** Each header has its packet's command and length, and starts where the one before it ends. */
  lemma {:induction false} HeadersAreLaidOut(packets: seq<BasePacket>, offset: int)
    ensures var headers := HeadersOf(packets, offset);
      && |headers| == |packets|
      && (packets != [] ==> headers[0].offset == offset)
      && (forall i :: 0 <= i < |packets| ==>
            headers[i].command == packets[i].command && headers[i].payloadLength == |packets[i].payload|)
      && (forall i :: 0 <= i < |packets| - 1 ==> headers[i + 1].offset == headers[i].offset + 8 + |packets[i].payload|)
  {
    if packets != [] {
      var rest := HeadersOf(packets[1..], offset + 8 + |packets[0].payload|);
      HeadersAreLaidOut(packets[1..], offset + 8 + |packets[0].payload|);
      var headers := HeadersOf(packets, offset);
      assert forall i :: 1 <= i < |packets| ==> headers[i] == rest[i - 1] && packets[i] == packets[1..][i - 1];
    }
  }

  /** The scan lists what the packet buffer would decode, at prefix-sum offsets, up to the first unknown command. */
  method ScanBasePackets(data: seq<byte>, includeUnknown: bool) returns (headers: seq<PacketHeader>)
    ensures headers == HeadersOf(Reported(Drain(data, true).packets, includeUnknown), 0)
    ensures includeUnknown ==> headers == HeadersOf(Drain(data, true).packets, 0)
  {
    headers := [];
    var offset := 0;
    assert data[0..] == data;
    ghost var all := HeadersFrom(data, 0, includeUnknown);
    if includeUnknown {
      AllReported(Drain(data, true).packets);
    }
    while offset + 8 <= |data|
      invariant 0 <= offset <= |data|
      invariant all == headers + HeadersFrom(data, offset, includeUnknown)
      decreases |data| - offset
    {
      var command, length := UnpackSigned(data[offset..offset + 4]), UnpackSigned(data[offset + 4..offset + 8]);
      var end := offset + 8 + length;
      ScanStep(data, includeUnknown, offset);
      if ValidLength(length) && end <= |data| && (command in COMMAND_NAMES || includeUnknown) {
        Regroup(headers, [PacketHeader(command, length, offset)], HeadersFrom(data, end, includeUnknown));
        headers := headers + [PacketHeader(command, length, offset)];
        offset := end;
      } else {
        break;
      }
    }
    assert HeadersFrom(data, offset, includeUnknown) == [];
    assert headers + [] == headers;
  }

  lemma Regroup(a: seq<PacketHeader>, b: seq<PacketHeader>, c: seq<PacketHeader>)
    ensures (a + b) + c == a + (b + c)
  {
  }

  /** The headers still to be listed from an offset on. */
  function HeadersFrom(data: seq<byte>, offset: int, includeUnknown: bool): seq<PacketHeader>
    requires 0 <= offset <= |data|
  {
    HeadersOf(Reported(Drain(data[offset..], true).packets, includeUnknown), offset)
  }

  lemma ScanStep(data: seq<byte>, includeUnknown: bool, offset: int)
    requires 0 <= offset && offset + 8 <= |data|
    ensures var command, length := UnpackSigned(data[offset..offset + 4]), UnpackSigned(data[offset + 4..offset + 8]);
      var end := offset + 8 + length;
      HeadersFrom(data, offset, includeUnknown) ==
        if ValidLength(length) && end <= |data| && (command in COMMAND_NAMES || includeUnknown)
        then [PacketHeader(command, length, offset)] + HeadersFrom(data, end, includeUnknown)
        else []
  {
    var rest := data[offset..];
    assert rest[..4] == data[offset..offset + 4] && rest[4..8] == data[offset + 4..offset + 8];
    if !Incomplete(rest) && !BadHead(rest) {
      var n := FrameLength(rest);
      var frame := rest[..n];
      HeadDecodes(rest, true);
      assert frame[..4] == rest[..4] && frame[4..8] == rest[4..8];
      assert rest[n..] == data[offset + n..];
      var packets := Drain(rest[n..], true).packets;
      assert ([HeadPacket(rest, true)] + packets)[1..] == packets;
      var wanted := Reported(packets, includeUnknown);
      assert ([HeadPacket(rest, true)] + wanted)[1..] == wanted;
    }
  }
}
