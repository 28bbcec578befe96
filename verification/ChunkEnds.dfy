/** Exactly where the windows of the chunkers end and begin. */
module ChunkEnds {
  import opened Texts
  import opened Chunking

  predicate IsBreak(c: CodePoint) {
    c == 10 || c == 0x20
  }

  /** The last line feed or space at or after `low` and before `high`. */
  ghost predicate IsLastBreak(t: Text, low: nat, high: nat, b: nat) {
    low <= b < high <= |t| && IsBreak(t[b]) && forall i :: b < i < high ==> !IsBreak(t[i])
  }

  ghost predicate HasNoBreak(t: Text, low: nat, high: nat) {
    high <= |t| && forall i :: low <= i < high ==> !IsBreak(t[i])
  }

  /** A separator is a line feed, a space, or a mark followed by a space. */
  ghost predicate IsSeparator(s: Text) {
    s == [10] || s == [0x20] || (|s| == 2 && s[1] == 0x20)
  }

  ghost predicate AreSeparators(separators: seq<Text>) {
    && (forall i :: 0 <= i < |separators| ==> IsSeparator(separators[i]))
    && [10] in separators && [0x20] in separators
  }

  lemma HitHasBreak(t: Text, s: Text, low: nat, high: nat, i: nat)
    requires high <= |t| && IsSeparator(s) && Hit(t, s, low, high, i)
    ensures i + |s| - 1 < high && IsBreak(t[i + |s| - 1])
  {
    assert t[i..i + |s|][|s| - 1] == s[|s| - 1];
  }

  lemma BreakIsHit(t: Text, low: nat, high: nat, b: nat)
    requires low <= b < high <= |t| && IsBreak(t[b])
    ensures Hit(t, [t[b]], low, high, b)
  {
    assert t[b..b + 1] == [t[b]];
  }

  /** A mark never decides, because the space after it comes later. */
  lemma LastOfIsLastBreak(t: Text, separators: seq<Text>, low: nat, high: nat)
    requires high <= |t| && AreSeparators(separators)
    requires forall i :: 0 <= i < |separators| ==> separators[i] != []
    ensures forall b: nat :: IsLastBreak(t, low, high, b) ==> LastOf(t, separators, low, high) == b
    ensures HasNoBreak(t, low, high) ==> LastOf(t, separators, low, high) == -1
  {
    var r := LastOf(t, separators, low, high);
    LastOfIsLast(t, separators, low, high);
    if r >= 0 {
      var s :| 0 <= s < |separators| && Hit(t, separators[s], low, high, r);
      HitHasBreak(t, separators[s], low, high, r);
    }
    forall b: nat | IsLastBreak(t, low, high, b)
      ensures r == b
    {
      BreakIsHit(t, low, high, b);
      var s :| 0 <= s < |separators| && separators[s] == [t[b]];
      assert b <= r;
    }
  }

  /** Where a window may end early: in its last quarter, but after its first character, for a message; in its second
      half for an event. */
  function LateFrom(c: Chunker, start: nat): nat
    requires !c.FixedChunker?
  {
    start + match c
            case MessageChunker(size, _) => if size < 2 then 1 else size * 3 / 4
            case EventChunker(size, _) => size / 2
            case FixedChunker(_, _) => 0
  }

  /** Just after the break; a message window leaves a line feed to the next. */
  function Cut(t: Text, c: Chunker, b: nat): nat
    requires b < |t|
  {
    if c.MessageChunker? && t[b] == 10 then b else b + 1
  }

  lemma SeparatorsAreSeparators()
    ensures AreSeparators(SEPARATORS) && AreSeparators(EVENT_SEPARATORS)
  {
    assert SEPARATORS[0] == [10] && SEPARATORS[4] == [0x20];
    assert EVENT_SEPARATORS[0] == [10] && EVENT_SEPARATORS[2] == [0x20];
  }

  /** The ends of a window that does not reach the end of the text. */
  ghost predicate EndsAtBreak(t: Text, c: Chunker, start: nat, end: int)
    requires !c.FixedChunker?
  {
    var low, high := LateFrom(c, start), start + c.size;
    && (forall b: nat :: IsLastBreak(t, low, high, b) ==> end == Cut(t, c, b))
    && (HasNoBreak(t, low, high) ==> end == high)
  }

  lemma LateQuarter(size: nat, overlap: nat, start: nat)
    requires size > 0
    ensures LateFrom(MessageChunker(size, overlap), start) == start + if size * 3 / 4 >= 1 then size * 3 / 4 else 1
    ensures start < LateFrom(MessageChunker(size, overlap), start) <= start + size
  {
  }

  lemma MessageEndIs(t: Text, size: nat, overlap: nat, start: nat, boundary: int)
    requires overlap < size && start + size < |t|
    requires boundary == LastOf(t, SEPARATORS, LateFrom(MessageChunker(size, overlap), start), start + size)
    ensures EndOf(t, MessageChunker(size, overlap), start)
            == if boundary < 0 then start + size else Cut(t, MessageChunker(size, overlap), boundary)
  {
    LateQuarter(size, overlap, start);
  }

  lemma MessageEnds(t: Text, size: nat, overlap: nat, start: nat)
    requires overlap < size && start + size < |t|
    ensures var c := MessageChunker(size, overlap); EndsAtBreak(t, c, start, EndOf(t, c, start))
  {
    SeparatorsAreSeparators();
    var low := LateFrom(MessageChunker(size, overlap), start);
    LastOfIsLastBreak(t, SEPARATORS, low, start + size);
    MessageEndIs(t, size, overlap, start, LastOf(t, SEPARATORS, low, start + size));
  }

  lemma EventEnds(t: Text, size: nat, overlap: nat, start: nat)
    requires overlap < size && start + size < |t|
    ensures var c := EventChunker(size, overlap); EndsAtBreak(t, c, start, EndOf(t, c, start))
  {
    SeparatorsAreSeparators();
    LastOfIsLastBreak(t, EVENT_SEPARATORS, LateFrom(EventChunker(size, overlap), start), start + size);
  }

  /** A window that reaches the end of the text ends there. Any other ends at the last line feed or space of its late
      part, or after its full size when that part has none. */
  lemma WindowEndsAtLastBreak(t: Text, c: Chunker, start: nat)
    requires ValidChunker(c) && start < |t|
    ensures start + c.size >= |t| ==> EndOf(t, c, start) == |t|
    ensures start + c.size < |t| ==>
      if c.FixedChunker? then EndOf(t, c, start) == start + c.size else EndsAtBreak(t, c, start, EndOf(t, c, start))
  {
    if start + c.size < |t| {
      match c
      case MessageChunker(size, overlap) => MessageEnds(t, size, overlap, start);
      case EventChunker(size, overlap) => EventEnds(t, size, overlap, start);
      case FixedChunker(_, _) =>
    }
  }

  /** The next window repeats the last `overlap` characters of this one if it is longer than that; if it is not, a
      message goes on where it ends, and an event one character after it began. */
  lemma NextRepeatsTheOverlap(c: Chunker, start: nat, end: nat)
    requires ValidChunker(c) && start < end <= start + c.size && !c.FixedChunker?
    ensures end - start > c.overlap ==> end - NextOf(c, start, end) == c.overlap
    ensures end - start <= c.overlap ==> NextOf(c, start, end) == if c.MessageChunker? then end else start + 1
  {
  }

  lemma Multiple(k: nat, step: nat)
    ensures (k + 1) * step == k * step + step
  {
  }

  /** The k-th fixed window begins k steps into the text, a step being the size less the overlap. */
  lemma {:induction false} FixedWindowsAre(t: Text, c: Chunker, ranges: seq<Range>, k: nat)
    requires c.FixedChunker? && ValidChunker(c) && WindowsSoFar(t, c, ranges) && k < |ranges|
    ensures ranges[k].0 == k * (c.size - c.overlap)
    ensures ranges[k].1 == if ranges[k].0 + c.size < |t| then ranges[k].0 + c.size else |t|
  {
    assert IsWindow(t, c, ranges[k]);
    if k > 0 {
      FixedWindowsAre(t, c, ranges, k - 1);
      assert Continues(t, c, ranges[k - 1], ranges[k]);
      Multiple(k - 1, c.size - c.overlap);
    }
  }
}
