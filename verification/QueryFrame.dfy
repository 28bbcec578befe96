/** The framed Q2-TEXT memory query: its printer, and the loop that drops the oldest events until it fits. */
module QueryFrame {
  import opened Wrappers
  import opened Texts
  import opened Numerals

  datatype Role = User | Assistant

  datatype Message = Message(role: Role, content: Text)

  datatype Event = Event(id: Text, messages: seq<Message>)

  datatype Variant = Q1 | Q2Text | Unsupported

  datatype Query = Query(text: Text, eventIds: seq<Text>, tokens: nat)

  datatype QueryError = WrongRole | UnsupportedVariant | NotEncodable | OverBudget

  const LF: CodePoint := 10
  const CR: CodePoint := 13
  const SPACE: CodePoint := 0x20
  const HEADER: Text := Ascii("MEMORY_QUERY_V1")
  const COUNT_TAG: Text := Ascii("RECENT_COUNT ")
  const MESSAGE_TAG: Text := Ascii("MESSAGE ")
  const CURRENT_TAG: Text := Ascii("CURRENT user ")
  const FOOTER: Text := Ascii("END_MEMORY_QUERY")

  /** ceil(bytes / 4), at least one for any text. */
  function EstimatedTokens(t: Text): nat {
    if t == [] then 0 else Max(1, (Utf8Len(t) + 3) / 4)
  }

  function Max(a: nat, b: nat): nat {
    if a >= b then a else b
  }

  function ReplaceCrLf(t: Text): Text {
    if t == [] then []
    else if t[0] == CR && |t| > 1 && t[1] == LF then [LF] + ReplaceCrLf(t[2..])
    else [t[0]] + ReplaceCrLf(t[1..])
  }

  function ReplaceCr(t: Text): Text {
    if t == [] then [] else [if t[0] == CR then LF else t[0]] + ReplaceCr(t[1..])
  }

  function Normalized(t: Text): Text {
    ReplaceCr(ReplaceCrLf(t))
  }

  function RoleName(r: Role): Text {
    match r
    case User => Ascii("user")
    case Assistant => Ascii("assistant")
  }

  function MessageLines(ordinal: nat, m: Message): seq<Text> {
    var content := Normalized(m.content);
    [MESSAGE_TAG + Decimal(ordinal) + [SPACE] + RoleName(m.role) + [SPACE] + Decimal(Utf8Len(content)), content]
  }

  /** The lines of the first n messages of an event. */
  function EventLines(messages: seq<Message>): seq<Text> {
    if messages == [] then []
    else EventLines(messages[..|messages| - 1]) + MessageLines(|messages|, messages[|messages| - 1])
  }

  function RecentLines(events: seq<Event>): seq<Text> {
    if events == [] then [] else EventLines(events[0].messages) + RecentLines(events[1..])
  }

  function QueryLines(recent: seq<Event>, current: Text): seq<Text> {
    var content := Normalized(current);
    [HEADER, COUNT_TAG + Decimal(|recent|)] + RecentLines(recent)
    + [CURRENT_TAG + Decimal(Utf8Len(content)), content, FOOTER]
  }

  function Join(lines: seq<Text>): Text {
    if lines == [] then []
    else if |lines| == 1 then lines[0]
    else lines[0] + [LF] + Join(lines[1..])
  }

  function Printed(recent: seq<Event>, current: Text): Text {
    Join(QueryLines(recent, current))
  }

  /** `s[-n:]`: the last n items, all of them when n is zero, and all but the first -n when n is negative. */
  function Tail<T>(s: seq<T>, n: int): seq<T> {
    if n > 0 then (if n >= |s| then s else s[|s| - n..])
    else if -n >= |s| then [] else s[-n..]
  }

  function Ids(events: seq<Event>): seq<Text> {
    seq(|events|, i requires 0 <= i < |events| => events[i].id)
  }

  predicate Fits(recent: seq<Event>, current: Text, maxTokens: int) {
    EstimatedTokens(Printed(recent, current)) <= maxTokens
  }

  // ----- Dropping the oldest event never lengthens the text -----

  /** The bytes of lines, each with its line feed. */
  function LinesLen(lines: seq<Text>): nat {
    if lines == [] then 0 else Utf8Len(lines[0]) + 1 + LinesLen(lines[1..])
  }

  lemma {:induction false} LinesLenConcat(a: seq<Text>, b: seq<Text>)
    ensures LinesLen(a + b) == LinesLen(a) + LinesLen(b)
  {
    if a == [] {
      assert a + b == b;
    } else {
      assert (a + b)[1..] == a[1..] + b;
      LinesLenConcat(a[1..], b);
    }
  }

  lemma SingleLine(line: Text)
    ensures LinesLen([line]) == Utf8Len(line) + 1
  {
    var rest: seq<Text> := [line][1..];
    assert rest == [];
  }

  lemma {:induction false} JoinLen(lines: seq<Text>)
    requires lines != []
    ensures Utf8Len(Join(lines)) + 1 == LinesLen(lines)
  {
    if |lines| > 1 {
      JoinLen(lines[1..]);
      Utf8LenConcat(lines[0] + [LF], Join(lines[1..]));
      Utf8LenConcat(lines[0], [LF]);
    } else {
      assert lines[1..] == [];
    }
  }

  lemma {:induction false} DecimalGrows(m: nat, n: nat)
    requires m <= n
    ensures |Decimal(m)| <= |Decimal(n)|
  {
    if n >= 10 && m >= 10 {
      DecimalGrows(m / 10, n / 10);
    }
  }

  lemma CountLineLen(n: nat)
    ensures Utf8Len(COUNT_TAG + Decimal(n)) == Utf8Len(COUNT_TAG) + |Decimal(n)|
  {
    Utf8LenConcat(COUNT_TAG, Decimal(n));
    Utf8LenBounds(Decimal(n));
  }

  /** The bytes of a query: its count line, its events and the rest. */
  lemma PrintedLen(recent: seq<Event>, current: Text)
    ensures var close := [CURRENT_TAG + Decimal(Utf8Len(Normalized(current))), Normalized(current), FOOTER];
            Utf8Len(Printed(recent, current)) + 1
            == LinesLen([HEADER]) + Utf8Len(COUNT_TAG) + |Decimal(|recent|)| + 1 + LinesLen(RecentLines(recent))
               + LinesLen(close)
  {
    var close := [CURRENT_TAG + Decimal(Utf8Len(Normalized(current))), Normalized(current), FOOTER];
    var count := COUNT_TAG + Decimal(|recent|);
    JoinLen(QueryLines(recent, current));
    LinesLenConcat([HEADER, count] + RecentLines(recent), close);
    LinesLenConcat([HEADER, count], RecentLines(recent));
    assert [HEADER, count] == [HEADER] + [count];
    LinesLenConcat([HEADER], [count]);
    SingleLine(count);
    CountLineLen(|recent|);
  }

  lemma DropOldest(recent: seq<Event>, current: Text)
    requires recent != []
    ensures Utf8Len(Printed(recent[1..], current)) <= Utf8Len(Printed(recent, current))
    ensures Printed(recent, current) != []
  {
    PrintedLen(recent, current);
    PrintedLen(recent[1..], current);
    DecimalGrows(|recent| - 1, |recent|);
    LinesLenConcat(EventLines(recent[0].messages), RecentLines(recent[1..]));
    SingleLine(HEADER);
    Utf8LenBounds(HEADER);
  }

  lemma FewerBytesFewerTokens(a: Text, b: Text)
    requires b != [] && Utf8Len(a) <= Utf8Len(b)
    ensures EstimatedTokens(a) <= EstimatedTokens(b)
  {
  }

  /** If a window fits, so does every window of its most recent events. */
  lemma {:induction false} FittingIsKept(recent: seq<Event>, current: Text, maxTokens: int, k: nat)
    requires k <= |recent| && Fits(recent, current, maxTokens)
    ensures Fits(recent[k..], current, maxTokens)
  {
    if k == 0 {
      assert recent[0..] == recent;
    } else {
      DropOldest(recent, current);
      FewerBytesFewerTokens(Printed(recent[1..], current), Printed(recent, current));
      FittingIsKept(recent[1..], current, maxTokens, k - 1);
      assert recent[1..][k - 1..] == recent[k..];
    }
  }

  /** The query over the longest run of most recent events that fits; it is refused exactly when not even
      the request alone fits, or when some text of the window has no UTF-8 form. */
  method BuildQuery(variant: Variant, current: Message, prefix: seq<Event>, recentCount: int, maxTokens: int)
    returns (r: Result<Query, QueryError>)
    ensures !current.role.User? ==> r == Failure(WrongRole)
    ensures current.role.User? && variant.Unsupported? ==> r == Failure(UnsupportedVariant)
    ensures current.role.User? && variant.Q1? ==>
      r == if !Encodable(current.content) then Failure(NotEncodable)
           else if EstimatedTokens(current.content) > maxTokens then Failure(OverBudget)
           else Success(Query(current.content, [], EstimatedTokens(current.content)))
    ensures current.role.User? && variant.Q2Text? ==>
      var window := Tail(prefix, recentCount);
      if !Encodable(Printed(window, current.content)) then r == Failure(NotEncodable)
      else
        match r
        case Success(q) =>
          exists k :: 0 <= k <= |window|
            && q == Query(Printed(window[k..], current.content), Ids(window[k..]),
                          EstimatedTokens(Printed(window[k..], current.content)))
            && Fits(window[k..], current.content, maxTokens)
            && forall j :: 0 <= j < k ==> !Fits(window[j..], current.content, maxTokens)
        case Failure(e) =>
          e == OverBudget && forall j :: 0 <= j <= |window| ==> !Fits(window[j..], current.content, maxTokens)
    ensures current.role.User? && variant.Q2Text? ==>
      (r == Failure(OverBudget) <==>
         Encodable(Printed(Tail(prefix, recentCount), current.content)) && !Fits([], current.content, maxTokens))
  {
    if !current.role.User? {
      return Failure(WrongRole);
    }
    if variant.Q1? {
      if !Encodable(current.content) {
        return Failure(NotEncodable);
      }
      var tokens := EstimatedTokens(current.content);
      return if tokens > maxTokens then Failure(OverBudget) else Success(Query(current.content, [], tokens));
    }
    if !variant.Q2Text? {
      return Failure(UnsupportedVariant);
    }
    var window := Tail(prefix, recentCount);
    var recent := window;
    ghost var k := 0;
    if !Encodable(Printed(recent, current.content)) {
      return Failure(NotEncodable);
    }
    while true
      invariant k <= |window| && recent == window[k..]
      invariant forall j :: 0 <= j < k ==> !Fits(window[j..], current.content, maxTokens)
      decreases |recent|
    {
      var text := Printed(recent, current.content);
      var tokens := EstimatedTokens(text);
      if tokens <= maxTokens {
        assert Fits(window[k..], current.content, maxTokens);
        FittingIsKept(window[k..], current.content, maxTokens, |window| - k);
        assert window[k..][|window| - k..] == [];
        return Success(Query(text, Ids(recent), tokens));
      }
      assert !Fits(window[k..], current.content, maxTokens);
      if recent == [] {
        assert window[k..] == [];
        return Failure(OverBudget);
      }
      recent := recent[1..];
      k := k + 1;
    }
  }
}
