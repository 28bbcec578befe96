/** The text of the framed query, block by block, the window it shows and the tokens it is charged for. */
module QueryText {
  import opened Wrappers
  import opened Texts
  import opened Numerals
  import opened QueryFrame
  import opened QueryDecoder

  // ----- Line endings -----

  /** Every CR LF, and every CR alone, becomes one LF, in one pass. */
  function OneEnding(t: Text): Text {
    if t == [] then []
    else if t[0] != 13 then [t[0]] + OneEnding(t[1..])
    else if |t| > 1 && t[1] == 10 then [10] + OneEnding(t[2..])
    else [10] + OneEnding(t[1..])
  }

  lemma ReplaceFirst(c: CodePoint, rest: Text)
    ensures ReplaceCr([c] + rest) == [if c == 13 then 10 else c] + ReplaceCr(rest)
  {
    assert ([c] + rest)[1..] == rest;
  }

  lemma {:induction false} TwoPassesAreOne(t: Text)
    ensures Normalized(t) == OneEnding(t)
  {
    if t != [] {
      if t[0] == 13 && |t| > 1 && t[1] == 10 {
        TwoPassesAreOne(t[2..]);
        ReplaceFirst(10, ReplaceCrLf(t[2..]));
      } else {
        TwoPassesAreOne(t[1..]);
        ReplaceFirst(t[0], ReplaceCrLf(t[1..]));
      }
    }
  }

  // ----- The text -----

  /** The length in bytes, and the text itself, each on a line. */
  function Sized(t: Text): Text {
    Decimal(Utf8Len(t)) + [10] + t + [10]
  }

  const USER: Text := Ascii(" user ")
  const ASSISTANT: Text := Ascii(" assistant ")

  function MessageText(ordinal: nat, m: Message): Text {
    Ascii("MESSAGE ") + Decimal(ordinal) + (if m.role == User then USER else ASSISTANT)
    + Sized(OneEnding(m.content))
  }

  /** The messages of an event, numbered from one. */
  function EventText(messages: seq<Message>): Text {
    if messages == [] then []
    else EventText(messages[..|messages| - 1]) + MessageText(|messages|, messages[|messages| - 1])
  }

  function WindowText(events: seq<Event>): Text {
    if events == [] then [] else EventText(events[0].messages) + WindowText(events[1..])
  }

  function HeadText(count: nat): Text {
    Ascii("MEMORY_QUERY_V1") + [10] + Ascii("RECENT_COUNT ") + Decimal(count) + [10]
  }

  function RequestText(current: Text): Text {
    Ascii("CURRENT user ") + Sized(OneEnding(current)) + Ascii("END_MEMORY_QUERY")
  }

  lemma RoleText(r: Role)
    ensures [SPACE] + RoleName(r) + [SPACE] == if r == User then USER else ASSISTANT
  {
  }

  lemma Regroup4(a: Text, b: Text, c: Text, d: Text, e: Text, f: Text)
    ensures a + (b + (c + (d + (e + f)))) == a + b + (c + d + e) + f
  {
  }

  lemma BlockIsMessageText(ordinal: nat, m: Message)
    ensures Block(Item(ordinal, m.role, Normalized(m.content))) == MessageText(ordinal, m)
  {
    TwoPassesAreOne(m.content);
    RoleText(m.role);
    Regroup4(MESSAGE_TAG, Decimal(ordinal), [SPACE], RoleName(m.role), [SPACE], Body(Normalized(m.content)));
  }

  lemma TextGrows(front: seq<Message>, m: Message)
    ensures EventText(front + [m]) == EventText(front) + MessageText(|front| + 1, m)
  {
    assert (front + [m])[..|front|] == front;
  }

  lemma BlocksGrow(front: seq<Message>, m: Message, item: Item)
    requires item == Item(|front| + 1, m.role, Normalized(m.content))
    ensures Blocks(ItemsOfEvent(front + [m])) == Blocks(ItemsOfEvent(front)) + Block(item)
  {
    assert ItemsOfEvent(front + [m]) == ItemsOfEvent(front) + [item];
    BlocksConcat(ItemsOfEvent(front), [item]);
    SingleBlock(item);
  }

  lemma {:induction false} EventBlocksAreText(messages: seq<Message>)
    ensures Blocks(ItemsOfEvent(messages)) == EventText(messages)
  {
    if messages == [] {
      assert ItemsOfEvent(messages) == [];
    } else {
      var front, last := messages[..|messages| - 1], messages[|messages| - 1];
      assert messages == front + [last];
      EventBlocksAreText(front);
      BlocksGrow(front, last, Item(|messages|, last.role, Normalized(last.content)));
      BlockIsMessageText(|messages|, last);
      TextGrows(front, last);
    }
  }

  lemma {:induction false} WindowBlocksAreText(events: seq<Event>)
    ensures Blocks(ItemsOf(events)) == WindowText(events)
  {
    if events != [] {
      WindowBlocksAreText(events[1..]);
      EventBlocksAreText(events[0].messages);
      BlocksConcat(ItemsOfEvent(events[0].messages), ItemsOf(events[1..]));
    }
  }

  lemma Parts(head: Text, count: Text, lf: Text, blocks: Text, tag: Text, body: Text, close: Text)
    ensures head + (count + (lf + (blocks + (tag + (body + close)))))
            == (head + count + lf) + blocks + (tag + body + close)
  {
  }

  /** The query is its heading, the blocks of the window and the request. */
  lemma PrintedIsText(recent: seq<Event>, current: Text)
    ensures Printed(recent, current) == HeadText(|recent|) + WindowText(recent) + RequestText(current)
  {
    PrintedIsFrame(recent, current);
    WindowBlocksAreText(recent);
    TwoPassesAreOne(current);
    Parts(HEADER + [LF] + COUNT_TAG, Decimal(|recent|), [LF], WindowText(recent), CURRENT_TAG,
          Body(Normalized(current)), FOOTER);
  }

  // ----- The window and the charge -----

  /** The last events of the prefix: at most so many, all of them for zero, all but the first -n for a negative n. */
  lemma TailIsLatest<T>(s: seq<T>, n: int)
    ensures var size := if n > 0 then (if n < |s| then n else |s|) else if |s| + n > 0 then |s| + n else 0;
            |Tail(s, n)| == size && Tail(s, n) == s[|s| - size..]
  {
  }

  /** What is shown once the k oldest events of the window are dropped: the last j of the prefix, by their names. */
  lemma ShownAreLatest(prefix: seq<Event>, recentCount: int, k: nat)
    requires k <= |Tail(prefix, recentCount)|
    ensures var window := Tail(prefix, recentCount); var j := |window| - k;
            && window[k..] == prefix[|prefix| - j..] && |Ids(window[k..])| == j
            && forall i :: 0 <= i < j ==> Ids(window[k..])[i] == prefix[|prefix| - j + i].id
  {
    TailIsLatest(prefix, recentCount);
  }

  /** A token is charged for every four bytes or part of four. */
  lemma TokensAreFourBytes(t: Text)
    ensures t == [] ==> EstimatedTokens(t) == 0
    ensures t != [] ==> 4 * (EstimatedTokens(t) - 1) < Utf8Len(t) <= 4 * EstimatedTokens(t)
  {
    Utf8LenBounds(t);
  }

  /** The code points that w bytes can hold (RFC 3629, section 3). */
  function Room(w: nat): nat {
    if w == 1 then 0x80 else if w == 2 then 0x800 else if w == 3 then 0x1_0000 else 0x20_0000
  }

  lemma WidthIsLeast(c: CodePoint, w: nat)
    requires 1 <= w <= 4
    ensures Width(c) <= w <==> c < Room(w)
  {
  }
}
