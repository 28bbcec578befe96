/** The chunkers: transcript messages and conversation events are cut at a late separator, documents
    into fixed windows. One description of the windows serves all three. */
module Chunking {
  import opened Wrappers
  import opened Texts

  /** A window's start and end. */
  type Range = (nat, nat)

  datatype Chunker =
    | MessageChunker(size: nat, overlap: nat)
    | EventChunker(size: nat, overlap: nat)
    | FixedChunker(size: nat, overlap: nat)

  datatype Config = Config(maxChars: int, overlap: int, maxChunks: int)

  /** A message chunker also names the version of the index it fills. */
  datatype MessageConfig = MessageConfig(windows: Config, indexVersion: Text)

  datatype ChunkError = InvalidConfig

  const SEPARATORS: seq<Text> := [[10], [0x2E, 0x20], [0x3B, 0x20], [0x2C, 0x20], [0x20]]
  const EVENT_SEPARATORS: seq<Text> := [[10], [0x2E, 0x20], [0x20]]

  predicate MatchesAt(t: Text, separator: Text, i: nat) {
    i + |separator| <= |t| && t[i..i + |separator|] == separator
  }

  /** `t.rfind(separator, low, high)`. */
  function RFind(t: Text, separator: Text, low: nat, high: nat): (r: int)
    requires high <= |t|
    ensures r == -1 || low <= r <= high - |separator|
    decreases high
  {
    if high < low + |separator| then -1
    else if MatchesAt(t, separator, high - |separator|) then high - |separator|
    else RFind(t, separator, low, high - 1)
  }

  /** The last position of any separator. */
  function LastOf(t: Text, separators: seq<Text>, low: nat, high: nat): (r: int)
    requires high <= |t| && forall i :: 0 <= i < |separators| ==> separators[i] != []
    ensures r == -1 || low <= r < high
  {
    if separators == [] then -1
    else
      var n := |separators| - 1;
      var front, last := LastOf(t, separators[..n], low, high), RFind(t, separators[n], low, high);
      if last >= front then last else front
  }

  predicate Hit(t: Text, separator: Text, low: nat, high: nat, i: int) {
    low <= i <= high - |separator| && MatchesAt(t, separator, i)
  }

  lemma {:induction false} RFindIsLast(t: Text, separator: Text, low: nat, high: nat)
    requires high <= |t|
    ensures var r := RFind(t, separator, low, high);
            (r >= 0 ==> Hit(t, separator, low, high, r)) && forall i :: Hit(t, separator, low, high, i) ==> i <= r
    decreases high
  {
    if high >= low + |separator| && !MatchesAt(t, separator, high - |separator|) {
      RFindIsLast(t, separator, low, high - 1);
      forall i | Hit(t, separator, low, high, i)
        ensures Hit(t, separator, low, high - 1, i)
      {
      }
    }
  }

  /** A cut is at the last place where any separator stands in the stretch. */
  lemma {:induction false} LastOfIsLast(t: Text, separators: seq<Text>, low: nat, high: nat)
    requires high <= |t| && forall i :: 0 <= i < |separators| ==> separators[i] != []
    ensures var r := LastOf(t, separators, low, high);
            && (r >= 0 ==> exists s :: 0 <= s < |separators| && Hit(t, separators[s], low, high, r))
            && forall s, i :: 0 <= s < |separators| && Hit(t, separators[s], low, high, i) ==> i <= r
  {
    if separators != [] {
      var n := |separators| - 1;
      LastOfIsLast(t, separators[..n], low, high);
      RFindIsLast(t, separators[n], low, high);
      var front, last := LastOf(t, separators[..n], low, high), RFind(t, separators[n], low, high);
      if last < front {
        var s :| 0 <= s < n && Hit(t, separators[..n][s], low, high, front);
        assert Hit(t, separators[s], low, high, front);
      } else if last >= 0 {
        assert Hit(t, separators[n], low, high, last);
      }
      forall s, i | 0 <= s < |separators| && Hit(t, separators[s], low, high, i)
        ensures i <= LastOf(t, separators, low, high)
      {
        assert s < n ==> separators[..n][s] == separators[s];
      }
    }
  }

  function Min(a: nat, b: nat): nat {
    if a <= b then a else b
  }

  /** Where the window at `start` ends. */
  function EndOf(t: Text, c: Chunker, start: nat): int {
    var hardEnd := Min(|t|, start + c.size);
    if hardEnd >= |t| then hardEnd
    else
      match c
      case MessageChunker(size, _) =>
        var late := size * 3 / 4;
        var boundary := LastOf(t, SEPARATORS, start + (if late >= 1 then late else 1), hardEnd);
        if boundary > start then (if t[boundary] == 10 then boundary else boundary + 1) else hardEnd
      case EventChunker(size, _) =>
        var boundary := LastOf(t, EVENT_SEPARATORS, start + size / 2, hardEnd);
        if boundary > start then boundary + 1 else hardEnd
      case FixedChunker(_, _) => hardEnd
  }

  /** Where the window after [start, end) begins. */
  function NextOf(c: Chunker, start: nat, end: nat): int {
    match c
    case MessageChunker(_, overlap) => if end - overlap > start then end - overlap else end
    case EventChunker(_, overlap) => if end - overlap >= start + 1 then end - overlap else start + 1
    case FixedChunker(size, overlap) => start + (size - overlap)
  }

  predicate ValidChunker(c: Chunker) {
    c.overlap < c.size
  }

  /** Windows are non-empty and at most the size, and the next begins after this one begins and no
      later than it ends. */
  lemma WindowsProgress(t: Text, c: Chunker, start: nat)
    requires ValidChunker(c) && start < |t|
    ensures var end := EndOf(t, c, start);
            start < end <= |t| && end <= start + c.size
            && (end < |t| ==> start < NextOf(c, start, end) <= end)
  {
  }

  predicate IsWindow(t: Text, c: Chunker, r: Range) {
    r.0 < |t| && r.1 == EndOf(t, c, r.0)
  }

  predicate Continues(t: Text, c: Chunker, a: Range, b: Range) {
    a.1 < |t| && b.0 == NextOf(c, a.0, a.1)
  }

  ghost predicate WindowsSoFar(t: Text, c: Chunker, ranges: seq<Range>) {
    && (forall k :: 0 <= k < |ranges| ==> IsWindow(t, c, ranges[k]))
    && (forall k :: 0 < k < |ranges| ==> Continues(t, c, ranges[k - 1], ranges[k]))
    && (ranges != [] ==> ranges[0].0 == 0)
  }

  /** The windows of a text: all of them, or the first `room`. */
  ghost predicate AreWindows(t: Text, c: Chunker, ranges: seq<Range>, room: nat) {
    && WindowsSoFar(t, c, ranges) && |ranges| <= room
    && (ranges == [] ==> t == [] || room == 0)
    && (ranges != [] ==> ranges[|ranges| - 1].1 >= |t| || |ranges| == room)
  }

  // ----- No gaps, and the text rebuilt -----

  predicate Follows(previous: Range, next: Range) {
    previous.0 < next.0 <= previous.1
  }

  ghost predicate NoGaps(ranges: seq<Range>, length: nat, size: nat) {
    && (forall k :: 0 <= k < |ranges| ==> ranges[k].0 < ranges[k].1 <= length && ranges[k].1 <= ranges[k].0 + size)
    && (forall k :: 0 < k < |ranges| ==> Follows(ranges[k - 1], ranges[k]))
  }

  lemma WindowsHaveNoGaps(t: Text, c: Chunker, ranges: seq<Range>)
    requires ValidChunker(c) && WindowsSoFar(t, c, ranges)
    ensures NoGaps(ranges, |t|, c.size)
  {
    forall k | 0 <= k < |ranges|
      ensures ranges[k].0 < ranges[k].1 <= |t| && ranges[k].1 <= ranges[k].0 + c.size
      ensures k > 0 ==> Follows(ranges[k - 1], ranges[k])
    {
      assert IsWindow(t, c, ranges[k]);
      WindowsProgress(t, c, ranges[k].0);
      if k > 0 {
        assert IsWindow(t, c, ranges[k - 1]) && Continues(t, c, ranges[k - 1], ranges[k]);
        WindowsProgress(t, c, ranges[k - 1].0);
      }
    }
  }

  function Pieces(t: Text, ranges: seq<Range>): (r: seq<(nat, Text)>)
    requires forall k :: 0 <= k < |ranges| ==> ranges[k].0 <= ranges[k].1 <= |t|
    ensures |r| == |ranges|
    ensures forall k :: 0 <= k < |r| ==> r[k] == (ranges[k].0, t[ranges[k].0..ranges[k].1])
  {
    seq(|ranges|, k requires 0 <= k < |ranges| => (ranges[k].0, t[ranges[k].0..ranges[k].1]))
  }

  /** Chunks put back together: of each, only what goes past the text rebuilt so far. */
  function Rebuilt(chunks: seq<(nat, Text)>): Text {
    if chunks == [] then []
    else
      var sofar, last := Rebuilt(chunks[..|chunks| - 1]), chunks[|chunks| - 1];
      if last.0 <= |sofar| < last.0 + |last.1| then sofar + last.1[|sofar| - last.0..] else sofar
  }

  /** How far the windows reach. */
  function Reach(ranges: seq<Range>): nat {
    if ranges == [] then 0
    else
      var r := Reach(ranges[..|ranges| - 1]);
      if ranges[|ranges| - 1].1 > r then ranges[|ranges| - 1].1 else r
  }

  lemma {:induction false} ReachIsFurthest(ranges: seq<Range>, length: nat)
    requires forall k :: 0 <= k < |ranges| ==> ranges[k].1 <= length
    ensures Reach(ranges) <= length
    ensures forall k :: 0 <= k < |ranges| ==> ranges[k].1 <= Reach(ranges)
  {
    if ranges != [] {
      ReachIsFurthest(ranges[..|ranges| - 1], length);
    }
  }

  lemma Extend(t: Text, sofar: nat, start: nat, end: nat)
    requires start <= sofar < end <= |t|
    ensures t[..sofar] + t[start..end][sofar - start..] == t[..end]
  {
  }

  lemma PiecesOfFront(t: Text, ranges: seq<Range>)
    requires ranges != [] && forall k :: 0 <= k < |ranges| ==> ranges[k].0 <= ranges[k].1 <= |t|
    ensures var n := |ranges| - 1;
            Pieces(t, ranges)[..n] == Pieces(t, ranges[..n])
            && Pieces(t, ranges)[n] == (ranges[n].0, t[ranges[n].0..ranges[n].1])
  {
  }

  lemma LastStartsWithin(ranges: seq<Range>, length: nat, size: nat)
    requires NoGaps(ranges, length, size) && ranges != [] && ranges[0].0 == 0
    ensures ranges[|ranges| - 1].0 <= Reach(ranges[..|ranges| - 1])
  {
    var n := |ranges| - 1;
    if n > 0 {
      ReachIsFurthest(ranges[..n], length);
      assert Follows(ranges[n - 1], ranges[n]);
      assert ranges[..n][n - 1].1 <= Reach(ranges[..n]);
    }
  }

  lemma FrontHasNoGaps(ranges: seq<Range>, length: nat, size: nat)
    requires NoGaps(ranges, length, size) && ranges != []
    ensures NoGaps(ranges[..|ranges| - 1], length, size)
  {
    var front := ranges[..|ranges| - 1];
    forall k | 0 < k < |front|
      ensures Follows(front[k - 1], front[k])
    {
      assert Follows(ranges[k - 1], ranges[k]);
    }
  }

  /** Chunks without gaps rebuild the text as far as they reach. */
  lemma {:induction false} ChunksRebuildText(t: Text, ranges: seq<Range>, size: nat)
    requires NoGaps(ranges, |t|, size) && (ranges != [] ==> ranges[0].0 == 0)
    ensures Reach(ranges) <= |t| && Rebuilt(Pieces(t, ranges)) == t[..Reach(ranges)]
  {
    ReachIsFurthest(ranges, |t|);
    if ranges != [] {
      FrontHasNoGaps(ranges, |t|, size);
      ChunksRebuildText(t, ranges[..|ranges| - 1], size);
      LastStartsWithin(ranges, |t|, size);
      LastRebuilds(t, ranges);
    }
  }

  lemma LastRebuilds(t: Text, ranges: seq<Range>)
    requires ranges != [] && forall k :: 0 <= k < |ranges| ==> ranges[k].0 < ranges[k].1 <= |t|
    requires var front := ranges[..|ranges| - 1];
             && Reach(front) <= |t| && ranges[|ranges| - 1].0 <= Reach(front)
             && Rebuilt(Pieces(t, front)) == t[..Reach(front)]
    ensures Rebuilt(Pieces(t, ranges)) == t[..Reach(ranges)]
  {
    var n := |ranges| - 1;
    PiecesOfFront(t, ranges);
    RebuildStep(t, Reach(ranges[..n]), ranges[n], Rebuilt(Pieces(t, ranges[..n])));
  }

  lemma RebuildStep(t: Text, sofar: nat, last: Range, rebuilt: Text)
    requires last.0 <= sofar <= |t| && last.0 < last.1 <= |t| && rebuilt == t[..sofar]
    ensures (if last.0 <= |rebuilt| < last.0 + (last.1 - last.0) then
               rebuilt + t[last.0..last.1][|rebuilt| - last.0..] else rebuilt)
            == t[..if last.1 > sofar then last.1 else sofar]
  {
    if sofar < last.1 {
      Extend(t, sofar, last.0, last.1);
    }
  }

  /** No gaps, the size and the number respected, and the text rebuilt: all of it unless the windows
      stopped at the permitted number. */
  ghost predicate Covers(t: Text, ranges: seq<Range>, size: nat, room: nat) {
    && NoGaps(ranges, |t|, size) && |ranges| <= room
    && Reach(ranges) <= |t| && Rebuilt(Pieces(t, ranges)) == t[..Reach(ranges)]
    && (Reach(ranges) == |t| || |ranges| == room)
  }

  lemma WindowsCover(t: Text, c: Chunker, ranges: seq<Range>, room: nat)
    requires ValidChunker(c) && AreWindows(t, c, ranges, room)
    ensures Covers(t, ranges, c.size, room)
  {
    WindowsHaveNoGaps(t, c, ranges);
    ChunksRebuildText(t, ranges, c.size);
    ReachIsFurthest(ranges, |t|);
  }

  /** The description leaves no choice. */
  lemma {:induction false} WindowsAgree(t: Text, c: Chunker, a: seq<Range>, b: seq<Range>, k: nat)
    requires WindowsSoFar(t, c, a) && WindowsSoFar(t, c, b) && k <= |a| && k <= |b|
    ensures a[..k] == b[..k]
  {
    if k > 0 {
      WindowsAgree(t, c, a, b, k - 1);
      assert IsWindow(t, c, a[k - 1]) && IsWindow(t, c, b[k - 1]);
      if k > 1 {
        assert a[k - 2] == a[..k - 1][k - 2] == b[k - 2];
        assert Continues(t, c, a[k - 2], a[k - 1]) && Continues(t, c, b[k - 2], b[k - 1]);
      }
      assert a[..k] == a[..k - 1] + [a[k - 1]] && b[..k] == b[..k - 1] + [b[k - 1]];
    }
  }

  lemma WindowsAreDetermined(t: Text, c: Chunker, a: seq<Range>, b: seq<Range>, room: nat)
    requires AreWindows(t, c, a, room) && AreWindows(t, c, b, room)
    ensures a == b
  {
    var k := Min(|a|, |b|);
    WindowsAgree(t, c, a, b, k);
    assert k > 0 ==> a[k - 1] == a[..k][k - 1] == b[k - 1];
    assert 0 < k < |a| ==> Continues(t, c, a[k - 1], a[k]);
    assert 0 < k < |b| ==> Continues(t, c, b[k - 1], b[k]);
    assert a != [] ==> IsWindow(t, c, a[0]);
    assert b != [] ==> IsWindow(t, c, b[0]);
    assert a[..|a|] == a && b[..|b|] == b;
  }

  // ----- The two capped loops -----

  /** `ChunkingConfig.validate` refuses this. */
  predicate IsInvalid(m: MessageConfig) {
    var c := m.windows;
    c.maxChars <= 0 || c.overlap < 0 || c.overlap >= c.maxChars || c.maxChunks <= 0 || m.indexVersion == []
  }

  /** `chunk_message`, on content whose line endings are normalised. */
  method ChunkMessage(t: Text, m: MessageConfig) returns (r: Result<seq<Range>, ChunkError>)
    ensures r.Failure? <==> IsInvalid(m)
    ensures r.Success? ==>
      var c := m.windows;
      AreWindows(t, MessageChunker(c.maxChars, c.overlap), r.value, c.maxChunks)
      && Covers(t, r.value, c.maxChars, c.maxChunks)
  {
    if IsInvalid(m) {
      return Failure(InvalidConfig);
    }
    var c := m.windows;
    var ranges := CutWindows(t, MessageChunker(c.maxChars, c.overlap), c.maxChunks);
    WindowsCover(t, MessageChunker(c.maxChars, c.overlap), ranges, c.maxChunks);
    r := Success(ranges);
  }

  /** `_chunk_text`; a limit below one yields no chunk. */
  method ChunkEventText(t: Text, c: Config) returns (r: Result<seq<Range>, ChunkError>)
    ensures r.Failure? <==> c.maxChars <= 0 || c.overlap < 0 || c.overlap >= c.maxChars
    ensures r.Success? ==>
      var room := if c.maxChunks >= 0 then c.maxChunks else 0;
      AreWindows(t, EventChunker(c.maxChars, c.overlap), r.value, room)
      && Covers(t, r.value, c.maxChars, room)
  {
    if c.maxChars <= 0 || c.overlap < 0 || c.overlap >= c.maxChars {
      return Failure(InvalidConfig);
    }
    var ranges := CutWindows(t, EventChunker(c.maxChars, c.overlap), c.maxChunks);
    WindowsCover(t, EventChunker(c.maxChars, c.overlap), ranges, if c.maxChunks >= 0 then c.maxChunks else 0);
    r := Success(ranges);
  }

  /** The loop both share: cut a window, stop at the end of the text, step back by the overlap. */
  method CutWindows(t: Text, c: Chunker, maxChunks: int) returns (ranges: seq<Range>)
    requires ValidChunker(c)
    ensures AreWindows(t, c, ranges, if maxChunks >= 0 then maxChunks else 0)
  {
    ranges := [];
    var start: nat := 0;
    while start < |t| && |ranges| < maxChunks
      invariant WindowsSoFar(t, c, ranges) && |ranges| <= if maxChunks >= 0 then maxChunks else 0
      invariant t != [] ==> start < |t|
      invariant StartsNext(t, c, ranges, start)
      decreases maxChunks - |ranges|
    {
      var end := CutOne(t, c, start);
      WindowAdded(t, c, ranges, start, end);
      ranges := ranges + [(start, end)];
      if end >= |t| {
        return;
      }
      start := Advance(t, c, start, end, ranges);
    }
  }

  ghost predicate StartsNext(t: Text, c: Chunker, ranges: seq<Range>, start: nat) {
    if ranges == [] then start == 0 else Continues(t, c, ranges[|ranges| - 1], (start, start))
  }

  lemma WindowAdded(t: Text, c: Chunker, ranges: seq<Range>, start: nat, end: nat)
    requires WindowsSoFar(t, c, ranges) && StartsNext(t, c, ranges, start) && IsWindow(t, c, (start, end))
    ensures WindowsSoFar(t, c, ranges + [(start, end)])
  {
    var more := ranges + [(start, end)];
    assert forall k :: 0 <= k < |ranges| ==> more[k] == ranges[k];
    forall k | 0 <= k < |more|
      ensures IsWindow(t, c, more[k])
    {
      assert k < |ranges| ==> IsWindow(t, c, ranges[k]);
    }
    forall k | 0 < k < |more|
      ensures Continues(t, c, more[k - 1], more[k])
    {
      assert k < |ranges| ==> Continues(t, c, ranges[k - 1], ranges[k]);
    }
  }

  method CutOne(t: Text, c: Chunker, start: nat) returns (end: nat)
    requires ValidChunker(c) && start < |t|
    ensures IsWindow(t, c, (start, end))
  {
    WindowsProgress(t, c, start);
    end := EndOf(t, c, start);
  }

  method Advance(t: Text, c: Chunker, start: nat, end: nat, ghost ranges: seq<Range>) returns (next: nat)
    requires ValidChunker(c) && IsWindow(t, c, (start, end)) && end < |t|
    requires ranges != [] && ranges[|ranges| - 1] == (start, end)
    ensures StartsNext(t, c, ranges, next) && next < |t|
  {
    WindowsProgress(t, c, start);
    next := NextOf(c, start, end);
  }
}
