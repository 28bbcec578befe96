/** Document chunking: fixed windows that lose no visible character, and the header path of a Markdown section. */
module DocumentChunking {
  import opened Wrappers
  import opened Texts
  import opened Chunking

  // ----- Pieces -----

  /** The windows stripped, without the blank ones. */
  function StrippedPieces(t: Text, ranges: seq<Range>): seq<Text>
    requires forall k :: 0 <= k < |ranges| ==> ranges[k].0 <= ranges[k].1 <= |t|
  {
    if ranges == [] then []
    else
      var n := |ranges| - 1;
      var front, piece := StrippedPieces(t, ranges[..n]), Strip(t[ranges[n].0..ranges[n].1]);
      if piece != [] then front + [piece] else front
  }

  predicate IsTrimmed(piece: Text) {
    piece != [] && !IsSpace(piece[0]) && !IsSpace(piece[|piece| - 1])
  }

  ghost predicate HoldsAt(t: Text, piece: Text, offset: nat, i: nat) {
    offset <= i < offset + |piece| <= |t| && t[offset..offset + |piece|] == piece
  }

  /** Some piece is the stretch of the text around position i. */
  ghost predicate Kept(t: Text, pieces: seq<Text>, i: nat) {
    exists k, offset :: 0 <= k < |pieces| && HoldsAt(t, pieces[k], offset, i)
  }

  lemma KeptGrows(t: Text, pieces: seq<Text>, piece: Text, i: nat)
    requires Kept(t, pieces, i)
    ensures Kept(t, pieces + [piece], i)
  {
    var k, offset :| 0 <= k < |pieces| && HoldsAt(t, pieces[k], offset, i);
    assert (pieces + [piece])[k] == pieces[k];
  }

  lemma SliceOfSlice(t: Text, start: nat, end: nat, a: nat, b: nat)
    requires start <= end <= |t| && a <= b <= end - start
    ensures t[start..end][a..b] == t[start + a..start + a + (b - a)]
  {
    assert forall i :: 0 <= i < b - a ==> t[start..end][a..b][i] == t[start + a..start + a + (b - a)][i];
  }

  lemma WindowKeepsVisible(t: Text, start: nat, end: nat, pieces: seq<Text>, i: nat)
    requires start <= i < end <= |t| && !IsSpace(t[i])
    ensures var piece := Strip(t[start..end]); piece != [] && Kept(t, pieces + [piece], i)
  {
    var window := t[start..end];
    var a, b := StripShape(window);
    assert window[i - start] == t[i];
    var piece := Strip(window);
    SliceOfSlice(t, start, end, a, b);
    assert HoldsAt(t, piece, start + a, i);
    assert (pieces + [piece])[|pieces|] == piece;
  }

  lemma {:induction false} PiecesKeepVisible(t: Text, ranges: seq<Range>, size: nat, i: nat)
    requires NoGaps(ranges, |t|, size) && (ranges != [] ==> ranges[0].0 == 0)
    requires ranges != [] && i < ranges[|ranges| - 1].1 && !IsSpace(t[i])
    ensures Kept(t, StrippedPieces(t, ranges), i)
  {
    var n := |ranges| - 1;
    var front, piece := StrippedPieces(t, ranges[..n]), Strip(t[ranges[n].0..ranges[n].1]);
    if i >= ranges[n].0 {
      WindowKeepsVisible(t, ranges[n].0, ranges[n].1, front, i);
    } else {
      assert Follows(ranges[n - 1], ranges[n]);
      FrontHasNoGaps(ranges, |t|, size);
      PiecesKeepVisible(t, ranges[..n], size, i);
      if piece != [] {
        KeptGrows(t, front, piece, i);
      }
    }
  }

  lemma {:induction false} PiecesAreTrimmed(t: Text, ranges: seq<Range>, size: nat)
    requires NoGaps(ranges, |t|, size)
    ensures forall k :: 0 <= k < |StrippedPieces(t, ranges)| ==>
      IsTrimmed(StrippedPieces(t, ranges)[k]) && |StrippedPieces(t, ranges)[k]| <= size
  {
    if ranges != [] {
      var n := |ranges| - 1;
      FrontHasNoGaps(ranges, |t|, size);
      PiecesAreTrimmed(t, ranges[..n], size);
      var a, b := StripShape(t[ranges[n].0..ranges[n].1]);
    }
  }

  /** Every piece is trimmed, non-empty and at most the size, and no visible character is lost. */
  ghost predicate KeepsText(t: Text, pieces: seq<Text>, size: int) {
    && (forall k :: 0 <= k < |pieces| ==> IsTrimmed(pieces[k]) && |pieces[k]| <= size)
    && (forall i :: 0 <= i < |t| && !IsSpace(t[i]) ==> Kept(t, pieces, i))
  }

  /** `split_recursive`: a blank text has no pieces whatever the parameters are. */
  method SplitRecursive(text: Text, size: int, overlap: int) returns (r: Result<seq<Text>, ChunkError>)
    ensures r.Failure? <==> Strip(text) != [] && (size <= 0 || overlap < 0 || overlap >= size)
    ensures r.Success? ==> KeepsText(Strip(text), r.value, size)
    ensures r.Success? && |Strip(text)| <= size ==> r.value == if Strip(text) == [] then [] else [Strip(text)]
    ensures r.Success? && |Strip(text)| > size > overlap >= 0 ==> ArePieces(Strip(text), size, overlap, r.value)
  {
    var t := Strip(text);
    var a, b := StripShape(text);
    if t == [] {
      return Success([]);
    }
    if size <= 0 || overlap < 0 || overlap >= size {
      return Failure(InvalidConfig);
    }
    if |t| <= size {
      WholeTextIsKept(t, size);
      return Success([t]);
    }
    var chunks := SplitWindows(t, size, overlap);
    r := Success(chunks);
  }

  /** The stripped pieces of the fixed windows of a text. */
  ghost predicate ArePieces(t: Text, size: nat, overlap: nat, pieces: seq<Text>) {
    exists ranges: seq<Range> ::
      WindowsSoFar(t, FixedChunker(size, overlap), ranges) && NoGaps(ranges, |t|, size)
      && ranges != [] && ranges[|ranges| - 1].1 == |t| && pieces == StrippedPieces(t, ranges)
  }

  method SplitWindows(t: Text, size: nat, overlap: nat) returns (chunks: seq<Text>)
    requires t != [] && overlap < size
    ensures KeepsText(t, chunks, size) && ArePieces(t, size, overlap, chunks)
  {
    var c := FixedChunker(size, overlap);
    var start: nat := 0;
    chunks := [];
    ghost var ranges: seq<Range> := [];
    while true
      invariant start < |t| && WindowsSoFar(t, c, ranges) && StartsNext(t, c, ranges, start)
      invariant NoGaps(ranges, |t|, size) && chunks == StrippedPieces(t, ranges)
      decreases |t| - start
    {
      var end := CutOne(t, c, start);
      PieceAdded(t, c, ranges, start, end);
      var piece := Strip(t[start..end]);
      if piece != [] {
        chunks := chunks + [piece];
      }
      ranges := ranges + [(start, end)];
      if end == |t| {
        SplitDone(t, ranges, size, overlap);
        return;
      }
      start := Advance(t, c, start, end, ranges);
    }
  }

  lemma SplitDone(t: Text, ranges: seq<Range>, size: nat, overlap: nat)
    requires WindowsSoFar(t, FixedChunker(size, overlap), ranges) && NoGaps(ranges, |t|, size)
    requires ranges != [] && ranges[|ranges| - 1].1 == |t|
    ensures KeepsText(t, StrippedPieces(t, ranges), size) && ArePieces(t, size, overlap, StrippedPieces(t, ranges))
  {
    FixedPiecesKeepText(t, ranges, size);
  }

  lemma PieceAdded(t: Text, c: Chunker, ranges: seq<Range>, start: nat, end: nat)
    requires ValidChunker(c) && WindowsSoFar(t, c, ranges) && NoGaps(ranges, |t|, c.size)
    requires StartsNext(t, c, ranges, start) && IsWindow(t, c, (start, end))
    ensures var more, piece := ranges + [(start, end)], Strip(t[start..end]);
            && WindowsSoFar(t, c, more) && NoGaps(more, |t|, c.size) && start < end <= |t|
            && StrippedPieces(t, more) == StrippedPieces(t, ranges) + if piece != [] then [piece] else []
  {
    WindowsProgress(t, c, start);
    WindowAdded(t, c, ranges, start, end);
    WindowsHaveNoGaps(t, c, ranges + [(start, end)]);
    PiecesAppend(t, ranges, start, end);
  }

  lemma PiecesAppend(t: Text, ranges: seq<Range>, start: nat, end: nat)
    requires start <= end <= |t| && forall k :: 0 <= k < |ranges| ==> ranges[k].0 <= ranges[k].1 <= |t|
    ensures var piece := Strip(t[start..end]);
            StrippedPieces(t, ranges + [(start, end)])
            == StrippedPieces(t, ranges) + if piece != [] then [piece] else []
  {
    assert (ranges + [(start, end)])[..|ranges|] == ranges;
  }

  lemma WholeTextIsKept(t: Text, size: nat)
    requires IsTrimmed(t) && |t| <= size
    ensures KeepsText(t, [t], size)
  {
    forall i | 0 <= i < |t|
      ensures Kept(t, [t], i)
    {
      assert t[0..0 + |t|] == t;
      assert HoldsAt(t, [t][0], 0, i);
    }
  }

  lemma FixedPiecesKeepText(t: Text, ranges: seq<Range>, size: nat)
    requires NoGaps(ranges, |t|, size) && ranges != [] && ranges[0].0 == 0 && ranges[|ranges| - 1].1 == |t|
    ensures KeepsText(t, StrippedPieces(t, ranges), size)
  {
    PiecesAreTrimmed(t, ranges, size);
    forall i | 0 <= i < |t| && !IsSpace(t[i])
      ensures Kept(t, StrippedPieces(t, ranges), i)
    {
      PiecesKeepVisible(t, ranges, size, i);
    }
  }

  // ----- The header path of a Markdown section -----

  /** The nearest header up to index j whose level is below the given one. */
  function Enclosing(levels: seq<nat>, j: nat, level: nat): (r: Option<nat>)
    requires j <= |levels|
    ensures r.Some? ==> r.value < j && levels[r.value] < level
  {
    if j == 0 then None
    else if levels[j - 1] < level then Some(j - 1)
    else Enclosing(levels, j - 1, level)
  }

  lemma {:induction false} EnclosingIsNearest(levels: seq<nat>, j: nat, level: nat)
    requires j <= |levels|
    ensures var r := Enclosing(levels, j, level);
            forall i :: (if r.Some? then r.value + 1 else 0) <= i < j ==> levels[i] >= level
  {
    if j > 0 && levels[j - 1] >= level {
      EnclosingIsNearest(levels, j - 1, level);
    }
  }

  /** A header's path: the path of the nearest earlier header of a lower level, and itself. */
  function PathOf(levels: seq<nat>, i: nat): (path: seq<nat>)
    requires i < |levels|
    ensures path != [] && path[|path| - 1] == i
    decreases i
  {
    match Enclosing(levels, i, levels[i])
    case None => [i]
    case Some(p) => PathOf(levels, p) + [i]
  }

  /** The path of the header before position n; empty before the first. */
  function PathBefore(levels: seq<nat>, n: nat): seq<nat>
    requires n <= |levels|
  {
    if n == 0 then [] else PathOf(levels, n - 1)
  }

  /** The stack of `split_markdown`: pop headers that are not lower in level, then push. */
  method HeaderPaths(levels: seq<nat>) returns (paths: seq<seq<nat>>)
    ensures |paths| == |levels| && forall i :: 0 <= i < |levels| ==> paths[i] == PathOf(levels, i)
  {
    paths := [];
    var path: seq<nat> := [];
    for i := 0 to |levels|
      invariant |paths| == i && forall k :: 0 <= k < i ==> paths[k] == PathOf(levels, k)
      invariant path == PathBefore(levels, i)
    {
      path := PopNotBelow(levels, i, path);
      path := path + [i];
      paths := paths + [path];
    }
  }

  /** Where the stack stands once header i is popped off it. */
  function Under(levels: seq<nat>, i: nat): (n: nat)
    requires i < |levels|
    ensures n <= i
  {
    match Enclosing(levels, i, levels[i])
    case None => 0
    case Some(p) => p + 1
  }

  /** Every header from position n up to header i is not below it in level. */
  ghost predicate NoneBelow(levels: seq<nat>, n: nat, i: nat)
    requires n <= i < |levels|
  {
    forall k :: n <= k < i ==> levels[k] >= levels[i]
  }

  method PopNotBelow(levels: seq<nat>, i: nat, stack: seq<nat>) returns (path: seq<nat>)
    requires i < |levels| && stack == PathBefore(levels, i)
    ensures path + [i] == PathOf(levels, i)
  {
    path := stack;
    ghost var below: nat := i;
    while path != [] && levels[path[|path| - 1]] >= levels[i]
      invariant below <= i && path == PathBefore(levels, below) && NoneBelow(levels, below, i)
      decreases |path|
    {
      PopStep(levels, i, below, path);
      path := path[..|path| - 1];
      below := Under(levels, below - 1);
    }
    PopDone(levels, i, below);
  }

  lemma PopStep(levels: seq<nat>, i: nat, below: nat, path: seq<nat>)
    requires below <= i < |levels| && NoneBelow(levels, below, i)
    requires path == PathBefore(levels, below) && path != [] && levels[path[|path| - 1]] >= levels[i]
    ensures below > 0 && NoneBelow(levels, Under(levels, below - 1), i)
    ensures path[..|path| - 1] == PathBefore(levels, Under(levels, below - 1))
  {
    var top: nat := below - 1;
    PathUnfolds(levels, top);
    EnclosingIsNearest(levels, top, levels[top]);
    WithoutLast(PathBefore(levels, Under(levels, top)), top);
  }

  lemma PopDone(levels: seq<nat>, i: nat, below: nat)
    requires below <= i < |levels| && NoneBelow(levels, below, i)
    requires var path := PathBefore(levels, below); path == [] || levels[path[|path| - 1]] < levels[i]
    ensures PathBefore(levels, below) + [i] == PathOf(levels, i)
  {
    EnclosingIs(levels, i, below, levels[i]);
    PathUnfolds(levels, i);
  }

  lemma PathUnfolds(levels: seq<nat>, i: nat)
    requires i < |levels|
    ensures PathOf(levels, i) == PathBefore(levels, Under(levels, i)) + [i]
  {
    if Enclosing(levels, i, levels[i]).None? {
      assert PathBefore(levels, 0) + [i] == [i];
    }
  }

  lemma WithoutLast(front: seq<nat>, i: nat)
    ensures (front + [i])[..|front + [i]| - 1] == front
  {
  }

  lemma {:induction false} EnclosingIs(levels: seq<nat>, j: nat, below: nat, level: nat)
    requires below <= j <= |levels| && forall k :: below <= k < j ==> levels[k] >= level
    requires below > 0 ==> levels[below - 1] < level
    ensures Enclosing(levels, j, level) == if below == 0 then None else Some(below - 1)
  {
    if j > below {
      EnclosingIs(levels, j - 1, below, level);
    }
  }

  predicate Nests(levels: seq<nat>, a: nat, b: nat) {
    a < b < |levels| && levels[a] < levels[b]
  }

  /** Levels strictly increase along the path, and headers stay in document order. */
  ghost predicate Nested(levels: seq<nat>, path: seq<nat>) {
    forall j, k :: 0 <= j < k < |path| ==> Nests(levels, path[j], path[k])
  }

  lemma NestedGrows(levels: seq<nat>, path: seq<nat>, i: nat)
    requires Nested(levels, path) && path != [] && Nests(levels, path[|path| - 1], i)
    ensures Nested(levels, path + [i])
  {
    var last, more := |path| - 1, path + [i];
    forall j, k | 0 <= j < k < |more|
      ensures Nests(levels, more[j], more[k])
    {
      if k <= last {
        assert Nests(levels, path[j], path[k]);
      } else if j < last {
        assert Nests(levels, path[j], path[last]);
      }
    }
  }

  lemma {:induction false} PathsNest(levels: seq<nat>, i: nat)
    requires i < |levels|
    ensures Nested(levels, PathOf(levels, i))
    decreases i
  {
    var p := Enclosing(levels, i, levels[i]);
    if p.Some? {
      PathsNest(levels, p.value);
      NestedGrows(levels, PathOf(levels, p.value), i);
    }
  }
}
