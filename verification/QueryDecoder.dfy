/** A decoder for the framed query, driven by its byte lengths, and the proof that it inverts the printer. */
module QueryDecoder {
  import opened Wrappers
  import opened Texts
  import opened Numerals
  import opened QueryFrame

  datatype Item = Item(ordinal: nat, role: Role, content: Text)

  /** Per event, the roles and normalised contents; then the current request. */
  datatype Decoded = Decoded(events: seq<seq<(Role, Text)>>, current: Text)

  // ----- The decoder -----

  function Expect(t: Text, p: Text): (r: Option<Text>)
    ensures r.Some? ==> |r.value| == |t| - |p|
  {
    if p <= t then Some(t[|p|..]) else None
  }

  function DigitRun(t: Text): (n: nat)
    ensures n <= |t| && AllDigits(t[..n])
    ensures n < |t| ==> !IsDigit(t[n])
  {
    if t == [] || !IsDigit(t[0]) then 0
    else
      var n := DigitRun(t[1..]);
      assert t[..n + 1] == [t[0]] + t[1..][..n];
      n + 1
  }

  function ReadNumber(t: Text): (r: Option<(nat, Text)>)
    ensures r.Some? ==> |r.value.1| < |t|
  {
    var n := DigitRun(t);
    if n == 0 then None else Some((ValueOf(t[..n]), t[n..]))
  }

  /** The shortest prefix of the given number of bytes, and what follows it. */
  function TakeBytes(t: Text, n: nat): (r: Option<(Text, Text)>)
    ensures r.Some? ==> |r.value.1| <= |t|
  {
    if n == 0 then Some(([], t))
    else if t == [] || Width(t[0]) > n then None
    else
      var (taken, rest) :- TakeBytes(t[1..], n - Width(t[0]));
      Some(([t[0]] + taken, rest))
  }

  function ReadRole(t: Text): (r: Option<(Role, Text)>)
    ensures r.Some? ==> |r.value.1| <= |t|
  {
    if RoleName(User) <= t then Some((User, t[|RoleName(User)|..]))
    else if RoleName(Assistant) <= t then Some((Assistant, t[|RoleName(Assistant)|..]))
    else None
  }

  /** A length, a line feed, that many bytes, and a line feed. */
  function ReadBody(t: Text): (r: Option<(Text, Text)>)
    ensures r.Some? ==> |r.value.1| < |t|
  {
    var (size, t1) :- ReadNumber(t);
    var t2 :- Expect(t1, [LF]);
    var (content, t3) :- TakeBytes(t2, size);
    var t4 :- Expect(t3, [LF]);
    Some((content, t4))
  }

  function ReadItem(t: Text): (r: Option<(Item, Text)>)
    ensures r.Some? ==> |r.value.1| < |t|
  {
    var t0 :- Expect(t, MESSAGE_TAG);
    var (ordinal, t1) :- ReadNumber(t0);
    var t2 :- Expect(t1, [SPACE]);
    var (role, t3) :- ReadRole(t2);
    var t4 :- Expect(t3, [SPACE]);
    var (content, t5) :- ReadBody(t4);
    Some((Item(ordinal, role, content), t5))
  }

  function ReadItems(t: Text): Option<(seq<Item>, Text)>
    decreases |t|
  {
    if Expect(t, MESSAGE_TAG).None? then Some(([], t))
    else
      var (item, t1) :- ReadItem(t);
      var (items, t2) :- ReadItems(t1);
      Some(([item] + items, t2))
  }

  /** A first ordinal opens an event; any other continues the one before. */
  function Group(items: seq<Item>): seq<seq<(Role, Text)>> {
    if items == [] then []
    else
      var groups := Group(items[..|items| - 1]);
      var last := items[|items| - 1];
      if last.ordinal == 1 || groups == [] then groups + [[(last.role, last.content)]]
      else groups[..|groups| - 1] + [groups[|groups| - 1] + [(last.role, last.content)]]
  }

  function ReadCount(t: Text): Option<(nat, Text)> {
    var t0 :- Expect(t, HEADER + [LF] + COUNT_TAG);
    var (count, t1) :- ReadNumber(t0);
    var t2 :- Expect(t1, [LF]);
    Some((count, t2))
  }

  function ReadRequest(t: Text): Option<(Text, Text)> {
    var t0 :- Expect(t, CURRENT_TAG);
    ReadBody(t0)
  }

  function Decode(t: Text): Option<Decoded> {
    var (count, t0) :- ReadCount(t);
    var (items, t1) :- ReadItems(t0);
    var (current, t2) :- ReadRequest(t1);
    if t2 == FOOTER && |Group(items)| == count then Some(Decoded(Group(items), current)) else None
  }

  // ----- The printer as blocks -----

  function Body(content: Text): Text {
    Decimal(Utf8Len(content)) + [LF] + content + [LF]
  }

  function Block(item: Item): Text {
    MESSAGE_TAG + (Decimal(item.ordinal) + ([SPACE] + (RoleName(item.role) + ([SPACE] + Body(item.content)))))
  }

  function Blocks(items: seq<Item>): Text {
    if items == [] then [] else Block(items[0]) + Blocks(items[1..])
  }

  function ItemsOfEvent(messages: seq<Message>): (items: seq<Item>)
    ensures |items| == |messages|
    ensures forall i :: 0 <= i < |messages| ==>
      items[i] == Item(i + 1, messages[i].role, Normalized(messages[i].content))
  {
    seq(|messages|, i requires 0 <= i < |messages| => Item(i + 1, messages[i].role, Normalized(messages[i].content)))
  }

  function ItemsOf(events: seq<Event>): seq<Item> {
    if events == [] then [] else ItemsOfEvent(events[0].messages) + ItemsOf(events[1..])
  }

  /** The lines, each with its line feed. */
  function Terminated(lines: seq<Text>): Text {
    if lines == [] then [] else lines[0] + [LF] + Terminated(lines[1..])
  }

  lemma {:induction false} JoinSplits(a: seq<Text>, b: seq<Text>)
    requires b != []
    ensures Join(a + b) == Terminated(a) + Join(b)
  {
    if a == [] {
      assert a + b == b;
    } else {
      assert (a + b)[1..] == a[1..] + b;
      JoinSplits(a[1..], b);
    }
  }

  lemma {:induction false} TerminatedConcat(a: seq<Text>, b: seq<Text>)
    ensures Terminated(a + b) == Terminated(a) + Terminated(b)
  {
    if a == [] {
      assert a + b == b;
    } else {
      assert (a + b)[1..] == a[1..] + b;
      TerminatedConcat(a[1..], b);
    }
  }

  lemma {:induction false} BlocksConcat(a: seq<Item>, b: seq<Item>)
    ensures Blocks(a + b) == Blocks(a) + Blocks(b)
  {
    if a == [] {
      assert a + b == b;
    } else {
      assert (a + b)[1..] == a[1..] + b;
      BlocksConcat(a[1..], b);
    }
  }

  lemma BlockParts(tag: Text, ordinal: Text, role: Text, size: Text, content: Text)
    ensures Terminated([tag + ordinal + [SPACE] + role + [SPACE] + size, content])
            == tag + (ordinal + ([SPACE] + (role + ([SPACE] + (size + [LF] + content + [LF])))))
  {
    TwoLines(tag + ordinal + [SPACE] + role + [SPACE] + size, content);
  }

  lemma OneBlock(ordinal: nat, m: Message)
    ensures Terminated(MessageLines(ordinal, m)) == Block(Item(ordinal, m.role, Normalized(m.content)))
  {
    var content := Normalized(m.content);
    BlockParts(MESSAGE_TAG, Decimal(ordinal), RoleName(m.role), Decimal(Utf8Len(content)), content);
  }

  lemma ItemsOfFront(messages: seq<Message>)
    requires messages != []
    ensures var n, items := |messages| - 1, ItemsOfEvent(messages);
            items == ItemsOfEvent(messages[..n]) + [items[n]] && items[..n] == ItemsOfEvent(messages[..n])
  {
  }

  lemma {:induction false} EventBlocks(messages: seq<Message>)
    ensures Terminated(EventLines(messages)) == Blocks(ItemsOfEvent(messages))
  {
    if messages != [] {
      var n := |messages| - 1;
      var front, last := messages[..n], ItemsOfEvent(messages)[n];
      EventBlocks(front);
      TerminatedConcat(EventLines(front), MessageLines(n + 1, messages[n]));
      OneBlock(n + 1, messages[n]);
      ItemsOfFront(messages);
      BlocksConcat(ItemsOfEvent(front), [last]);
      SingleBlock(last);
    }
  }

  lemma SingleBlock(item: Item)
    ensures Blocks([item]) == Block(item)
  {
    assert Blocks([item]) == Block(item) + Blocks([item][1..]);
  }

  lemma {:induction false} RecentBlocks(events: seq<Event>)
    ensures Terminated(RecentLines(events)) == Blocks(ItemsOf(events))
  {
    if events != [] {
      EventBlocks(events[0].messages);
      RecentBlocks(events[1..]);
      TerminatedConcat(EventLines(events[0].messages), RecentLines(events[1..]));
      BlocksConcat(ItemsOfEvent(events[0].messages), ItemsOf(events[1..]));
    }
  }

  // ----- Decoding inverts printing -----

  lemma ExpectPrefix(p: Text, rest: Text)
    ensures Expect(p + rest, p) == Some(rest)
  {
    assert p <= p + rest && (p + rest)[|p|..] == rest;
  }

  lemma {:induction false} DigitRunStops(ds: Text, rest: Text)
    requires AllDigits(ds) && (rest == [] || !IsDigit(rest[0]))
    ensures DigitRun(ds + rest) == |ds|
  {
    if ds == [] {
      assert ds + rest == rest;
    } else {
      assert (ds + rest)[1..] == ds[1..] + rest;
      DigitRunStops(ds[1..], rest);
    }
  }

  lemma NumberReadsBack(n: nat, rest: Text)
    requires rest == [] || !IsDigit(rest[0])
    ensures ReadNumber(Decimal(n) + rest) == Some((n, rest))
  {
    DigitRunStops(Decimal(n), rest);
    DecimalRoundTrip(n);
    assert (Decimal(n) + rest)[..|Decimal(n)|] == Decimal(n) && (Decimal(n) + rest)[|Decimal(n)|..] == rest;
  }

  lemma {:induction false} BytesReadBack(t: Text, rest: Text)
    ensures TakeBytes(t + rest, Utf8Len(t)) == Some((t, rest))
  {
    if t == [] {
      assert t + rest == rest;
    } else {
      assert (t + rest)[1..] == t[1..] + rest;
      BytesReadBack(t[1..], rest);
      assert [t[0]] + t[1..] == t;
    }
  }

  lemma BodyReadsBack(content: Text, rest: Text)
    ensures ReadBody(Body(content) + rest) == Some((content, rest))
  {
    var t2 := content + ([LF] + rest);
    assert Body(content) + rest == Decimal(Utf8Len(content)) + ([LF] + t2);
    NumberReadsBack(Utf8Len(content), [LF] + t2);
    ExpectPrefix([LF], t2);
    BytesReadBack(content, [LF] + rest);
    ExpectPrefix([LF], rest);
  }

  lemma RoleReadsBack(role: Role, rest: Text)
    ensures ReadRole(RoleName(role) + rest) == Some((role, rest))
  {
    var t := RoleName(role) + rest;
    assert RoleName(role) <= t && t[|RoleName(role)|..] == rest;
    if role.Assistant? {
      assert t[0] == RoleName(Assistant)[0] != RoleName(User)[0];
    }
  }

  lemma ItemReadsBack(item: Item, rest: Text)
    ensures ReadItem(Block(item) + rest) == Some((item, rest))
  {
    var t5 := Body(item.content) + rest;
    var t3 := RoleName(item.role) + ([SPACE] + t5);
    var t1 := Decimal(item.ordinal) + ([SPACE] + t3);
    assert Block(item) + rest == MESSAGE_TAG + t1;
    ExpectPrefix(MESSAGE_TAG, t1);
    NumberReadsBack(item.ordinal, [SPACE] + t3);
    ExpectPrefix([SPACE], t3);
    RoleReadsBack(item.role, [SPACE] + t5);
    ExpectPrefix([SPACE], t5);
    BodyReadsBack(item.content, rest);
  }

  lemma ReadOneMore(t: Text, item: Item, t1: Text, items: seq<Item>, rest: Text)
    requires Expect(t, MESSAGE_TAG).Some? && ReadItem(t) == Some((item, t1)) && ReadItems(t1) == Some((items, rest))
    ensures ReadItems(t) == Some(([item] + items, rest))
  {
  }

  lemma BlockStarts(item: Item, rest: Text)
    ensures Expect(Block(item) + rest, MESSAGE_TAG).Some?
  {
    var t1 := Decimal(item.ordinal) + ([SPACE] + (RoleName(item.role) + ([SPACE] + Body(item.content))));
    assert Block(item) + rest == MESSAGE_TAG + (t1 + rest);
    ExpectPrefix(MESSAGE_TAG, t1 + rest);
  }

  lemma BlocksSplit(items: seq<Item>, rest: Text)
    requires items != []
    ensures Blocks(items) + rest == Block(items[0]) + (Blocks(items[1..]) + rest)
  {
    var a, b := Block(items[0]), Blocks(items[1..]);
    assert (a + b) + rest == a + (b + rest);
  }

  lemma NextItem(t: Text, item: Item, items: seq<Item>, more: Text, rest: Text)
    requires t == Block(item) + more && ReadItems(more) == Some((items, rest))
    ensures ReadItems(t) == Some(([item] + items, rest))
  {
    BlockStarts(item, more);
    ItemReadsBack(item, more);
    ReadOneMore(t, item, more, items, rest);
  }

  lemma NoMoreItems(rest: Text)
    requires Expect(rest, MESSAGE_TAG).None?
    ensures ReadItems(rest) == Some(([], rest))
  {
  }

  lemma AllItems(items: seq<Item>, rest: Text, more: Text)
    requires items != [] && more == Blocks(items[1..]) + rest && ReadItems(more) == Some((items[1..], rest))
    ensures ReadItems(Blocks(items) + rest) == Some((items, rest))
  {
    BlocksSplit(items, rest);
    var t := Block(items[0]) + more;
    NextItem(t, items[0], items[1..], more, rest);
    HeadAndTail(items);
  }

  lemma HeadAndTail(items: seq<Item>)
    requires items != []
    ensures [items[0]] + items[1..] == items
  {
  }

  lemma {:induction false} ItemsReadBack(items: seq<Item>, rest: Text)
    requires Expect(rest, MESSAGE_TAG).None?
    ensures ReadItems(Blocks(items) + rest) == Some((items, rest))
  {
    if items == [] {
      NoMoreItems(rest);
      assert Blocks(items) + rest == rest;
    } else {
      ItemsReadBack(items[1..], rest);
      AllItems(items, rest, Blocks(items[1..]) + rest);
    }
  }

  function Shown(messages: seq<Message>): seq<(Role, Text)> {
    seq(|messages|, i requires 0 <= i < |messages| => (messages[i].role, Normalized(messages[i].content)))
  }

  function ShownEvents(events: seq<Event>): seq<seq<(Role, Text)>> {
    seq(|events|, i requires 0 <= i < |events| => Shown(events[i].messages))
  }

  lemma GroupAppend(items: seq<Item>, item: Item)
    ensures Group(items + [item]) ==
      var groups := Group(items);
      if item.ordinal == 1 || groups == [] then groups + [[(item.role, item.content)]]
      else groups[..|groups| - 1] + [groups[|groups| - 1] + [(item.role, item.content)]]
  {
    assert (items + [item])[..|items|] == items;
  }

  lemma ShownFront(messages: seq<Message>)
    requires messages != []
    ensures var n, last := |messages| - 1, ItemsOfEvent(messages)[|messages| - 1];
            Shown(messages) == Shown(messages[..n]) + [(last.role, last.content)]
  {
  }

  lemma {:induction false} GroupEvent(before: seq<Item>, messages: seq<Message>)
    requires messages != []
    ensures Group(before + ItemsOfEvent(messages)) == Group(before) + [Shown(messages)]
  {
    var n := |messages| - 1;
    var front, last := ItemsOfEvent(messages[..n]), ItemsOfEvent(messages)[n];
    ItemsOfFront(messages);
    assert before + ItemsOfEvent(messages) == (before + front) + [last];
    GroupAppend(before + front, last);
    ShownFront(messages);
    if n == 0 {
      assert before + front == before;
      assert Shown(messages[..n]) + [(last.role, last.content)] == [(last.role, last.content)];
    } else {
      GroupEvent(before, messages[..n]);
    }
  }

  ghost predicate NoneEmpty(events: seq<Event>) {
    forall i :: 0 <= i < |events| ==> events[i].messages != []
  }

  lemma ShownCons(events: seq<Event>)
    requires events != []
    ensures ShownEvents(events) == [Shown(events[0].messages)] + ShownEvents(events[1..])
  {
  }

  lemma Associate<T>(a: seq<T>, b: seq<T>, c: seq<T>)
    ensures a + (b + c) == (a + b) + c
  {
  }

  lemma {:induction false} GroupEvents(before: seq<Item>, events: seq<Event>)
    requires NoneEmpty(events)
    ensures Group(before + ItemsOf(events)) == Group(before) + ShownEvents(events)
    decreases |events|
  {
    if events == [] {
      assert before + ItemsOf(events) == before;
    } else {
      var first, rest := ItemsOfEvent(events[0].messages), events[1..];
      Associate(before, first, ItemsOf(rest));
      GroupEvents(before + first, rest);
      GroupEvent(before, events[0].messages);
      ShownCons(events);
      Associate(Group(before), [Shown(events[0].messages)], ShownEvents(rest));
    }
  }

  /** The printed text as one frame around its blocks. */
  function Frame(count: nat, items: seq<Item>, content: Text): Text {
    (HEADER + [LF] + COUNT_TAG)
    + (Decimal(count) + ([LF] + (Blocks(items) + (CURRENT_TAG + (Body(content) + FOOTER)))))
  }

  /** The lines of a query, up to its last. */
  lemma LinesSplit(head: seq<Text>, middle: seq<Text>, request: seq<Text>, close: Text)
    ensures Join(head + middle + (request + [close]))
            == Terminated(head) + Terminated(middle) + Terminated(request) + close
  {
    assert head + middle + (request + [close]) == (head + middle + request) + [close];
    JoinSplits(head + middle + request, [close]);
    TerminatedConcat(head + middle, request);
    TerminatedConcat(head, middle);
  }

  lemma TwoLines(a: Text, b: Text)
    ensures Terminated([a, b]) == a + [LF] + (b + [LF])
  {
    assert [a, b][1..] == [b];
    assert Terminated([b]) == b + [LF];
  }

  lemma Regroup(
      header: Text, tag: Text, count: Text, blocks: Text, current: Text, size: Text, content: Text, close: Text)
    ensures (header + [LF] + (tag + count + [LF])) + blocks + (current + size + [LF] + (content + [LF])) + close
            == (header + [LF] + tag)
               + (count + ([LF] + (blocks + (current + ((size + [LF] + content + [LF]) + close)))))
  {
  }

  lemma LinesOfQuery(recent: seq<Event>, current: Text)
    ensures var content := Normalized(current);
            QueryLines(recent, current)
            == [HEADER, COUNT_TAG + Decimal(|recent|)] + RecentLines(recent)
               + ([CURRENT_TAG + Decimal(Utf8Len(content)), content] + [FOOTER])
  {
  }

  lemma PrintedParts(recent: seq<Event>, current: Text, count: Text, size: Text, content: Text)
    requires count == Decimal(|recent|) && content == Normalized(current) && size == Decimal(Utf8Len(content))
    ensures Printed(recent, current)
            == (HEADER + [LF] + (COUNT_TAG + count + [LF])) + Blocks(ItemsOf(recent))
               + (CURRENT_TAG + size + [LF] + (content + [LF])) + FOOTER
  {
    LinesOfQuery(recent, current);
    LinesSplit([HEADER, COUNT_TAG + count], RecentLines(recent), [CURRENT_TAG + size, content], FOOTER);
    TwoLines(HEADER, COUNT_TAG + count);
    TwoLines(CURRENT_TAG + size, content);
    RecentBlocks(recent);
  }

  lemma PrintedIsFrame(recent: seq<Event>, current: Text)
    ensures Printed(recent, current) == Frame(|recent|, ItemsOf(recent), Normalized(current))
  {
    var content := Normalized(current);
    PrintedParts(recent, current, Decimal(|recent|), Decimal(Utf8Len(content)), content);
    Regroup(HEADER, COUNT_TAG, Decimal(|recent|), Blocks(ItemsOf(recent)), CURRENT_TAG, Decimal(Utf8Len(content)),
            content, FOOTER);
  }

  lemma CountReadsBack(count: nat, rest: Text)
    ensures ReadCount((HEADER + [LF] + COUNT_TAG) + (Decimal(count) + ([LF] + rest))) == Some((count, rest))
  {
    ExpectPrefix(HEADER + [LF] + COUNT_TAG, Decimal(count) + ([LF] + rest));
    NumberReadsBack(count, [LF] + rest);
    ExpectPrefix([LF], rest);
  }

  lemma RequestReadsBack(content: Text, rest: Text)
    ensures ReadRequest(CURRENT_TAG + (Body(content) + rest)) == Some((content, rest))
    ensures Expect(CURRENT_TAG + (Body(content) + rest), MESSAGE_TAG).None?
  {
    ExpectPrefix(CURRENT_TAG, Body(content) + rest);
    BodyReadsBack(content, rest);
    assert (CURRENT_TAG + (Body(content) + rest))[0] == CURRENT_TAG[0] != MESSAGE_TAG[0];
  }

  /** The events that have messages. */
  function Solid(events: seq<Event>): seq<Event> {
    if events == [] then []
    else if events[0].messages == [] then Solid(events[1..])
    else [events[0]] + Solid(events[1..])
  }

  lemma {:induction false} SolidItems(events: seq<Event>)
    ensures ItemsOf(Solid(events)) == ItemsOf(events) && NoneEmpty(Solid(events))
    ensures |Solid(events)| <= |events| && (|Solid(events)| == |events| <==> NoneEmpty(events))
    ensures NoneEmpty(events) ==> Solid(events) == events
  {
    if events != [] {
      SolidItems(events[1..]);
      assert NoneEmpty(events) <==> events[0].messages != [] && NoneEmpty(events[1..]);
      if events[0].messages == [] {
        assert ItemsOfEvent(events[0].messages) == [];
        assert ItemsOf(events) == ItemsOf(events[1..]);
      } else {
        var solid := [events[0]] + Solid(events[1..]);
        assert solid[1..] == Solid(events[1..]);
        assert [events[0]] + events[1..] == events;
      }
    }
  }

  /** The groups that are read back are the events with messages. */
  lemma GroupsAreSolid(events: seq<Event>)
    ensures Group(ItemsOf(events)) == ShownEvents(Solid(events))
  {
    SolidItems(events);
    GroupEvents([], Solid(events));
    assert [] + ItemsOf(events) == ItemsOf(events);
    assert Group([]) + ShownEvents(Solid(events)) == ShownEvents(Solid(events));
  }

  lemma SameShown(recent: seq<Event>)
    ensures |ShownEvents(recent)| == |recent| && |ShownEvents(Solid(recent))| == |Solid(recent)|
  {
  }

  lemma DecodeSteps(t: Text, count: nat, t0: Text, items: seq<Item>, t1: Text, current: Text)
    requires ReadCount(t) == Some((count, t0)) && ReadItems(t0) == Some((items, t1))
    requires ReadRequest(t1) == Some((current, FOOTER))
    ensures Decode(t) == if |Group(items)| == count then Some(Decoded(Group(items), current)) else None
  {
  }

  lemma DecodeOfFrame(count: nat, items: seq<Item>, content: Text)
    ensures Decode(Frame(count, items, content))
            == if |Group(items)| == count then Some(Decoded(Group(items), content)) else None
  {
    var tail := CURRENT_TAG + (Body(content) + FOOTER);
    CountReadsBack(count, Blocks(items) + tail);
    RequestReadsBack(content, FOOTER);
    ItemsReadBack(items, tail);
    DecodeSteps(Frame(count, items, content), count, Blocks(items) + tail, items, tail, content);
  }

  /** Whatever the contents are, line feeds included, the decoder recovers the retained events and the request
      exactly when every event has a message; otherwise the count betrays the loss. */
  lemma DecodeInvertsPrinting(recent: seq<Event>, current: Text)
    ensures var shown := Decoded(ShownEvents(recent), Normalized(current));
            && (Decode(Printed(recent, current)) == Some(shown) <==> NoneEmpty(recent))
            && (Decode(Printed(recent, current)) == None <==> !NoneEmpty(recent))
  {
    GroupsAreSolid(recent);
    SolidItems(recent);
    PrintedIsFrame(recent, current);
    DecodeOfFrame(|recent|, ItemsOf(recent), Normalized(current));
    SameShown(recent);
  }

  /** Two windows print alike exactly when they show the same conversation. */
  lemma PrintingIsInjective(recent: seq<Event>, current: Text, recent': seq<Event>, current': Text)
    requires NoneEmpty(recent) && NoneEmpty(recent')
    requires Printed(recent, current) == Printed(recent', current')
    ensures ShownEvents(recent) == ShownEvents(recent') && Normalized(current) == Normalized(current')
  {
    DecodeInvertsPrinting(recent, current);
    DecodeInvertsPrinting(recent', current');
  }

  /** An event without messages leaves no trace but the count, so its place is lost. */
  lemma EmptyEventsAreAmbiguous(e: Event, current: Text)
    requires e.messages != []
    ensures var hollow := Event(e.id, []);
            Printed([hollow, e], current) == Printed([e, hollow], current)
            && ShownEvents([hollow, e]) != ShownEvents([e, hollow])
  {
    var hollow := Event(e.id, []);
    assert [hollow, e][1..] == [e] && [e, hollow][1..] == [hollow] && [e][1..] == [] && [hollow][1..] == [];
    assert RecentLines([e]) == EventLines(e.messages) + [];
    assert RecentLines([hollow, e]) == RecentLines([e, hollow]);
    assert |ShownEvents([hollow, e])[0]| == 0 != |ShownEvents([e, hollow])[0]|;
  }
}
