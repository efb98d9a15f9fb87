/** Server-sent events: the frames a connection writes and the lines a client reads (sections 9.2.5 and 9.2.6 of the
WHATWG HTML standard). The network is a sequence of characters; nothing here depends on their encoding. */
module ServerSentEvents {
  import opened Strings

  const COMMENT: string := ":"
  const DATA: string := "data:"
  const LAST_EVENT_ID: string := "id:"

  datatype Message = Message(data: seq<string>, lastEventId: string)

  const EMPTY := Message([], "")

  /** What the server does with a connection. */
  datatype Command = Send(message: Message) | Tick

  // ---------------------------------------------------------------- the server

  function Line(text: string): string {
    text + "\n"
  }

  function DataLines(items: seq<string>): string {
    if items == [] then "" else Line(DATA + items[0]) + DataLines(items[1..])
  }

  /** An empty data list is sent as one empty item. */
  function Items(message: Message): seq<string> {
    if message.data == [] then [""] else message.data
  }

  function IdLine(id: string): string {
    if id == "" then "" else Line(LAST_EVENT_ID + id)
  }

  function Frame(command: Command): string {
    match command
    case Send(message) =>
      DataLines(Items(message)) + IdLine(message.lastEventId) + Line("")
    case Tick => Line(COMMENT) + Line("")
  }

  function Frames(commands: seq<Command>): string {
    if commands == [] then "" else Frame(commands[0]) + Frames(commands[1..])
  }

  lemma {:induction false} DataLinesSnoc(items: seq<string>, item: string)
    ensures DataLines(items + [item]) == DataLines(items) + Line(DATA + item)
  {
    if items == [] {
      assert items + [item] == [item];
    } else {
      assert (items + [item])[1..] == items[1..] + [item];
      DataLinesSnoc(items[1..], item);
    }
  }

  /** Sending one more command puts its frame behind those of the commands before. */
  lemma {:induction false} FramesSnoc(commands: seq<Command>, command: Command)
    ensures Frames(commands + [command]) == Frames(commands) + Frame(command)
    decreases |commands|
  {
    if commands == [] {
      assert commands + [command] == [command];
    } else {
      assert (commands + [command])[1..] == commands[1..] + [command];
      FramesSnoc(commands[1..], command);
    }
  }

  lemma {:induction false} OneDataLine(item: string)
    ensures DataLines([item]) == "data:" + item + "\n"
  {
    assert [item][1..] == [];
    assert Line(DATA + item) + "" == Line(DATA + item);
  }

  /** Frames in full: what goes over the wire for one item with an id, for nothing at all, and for a tick. */
  lemma {:induction false} FramesInFull(item: string, id: string)
    requires id != ""
    ensures Frame(Send(Message([item], id))) == ("data:" + item + "\n") + ("id:" + id + "\n") + "\n"
    ensures Frame(Send(EMPTY)) == "data:" + "" + "\n" + "" + "\n"
    ensures Frame(Tick) == ":" + "\n" + "\n"
  {
    OneDataLine(item);
    OneDataLine("");
    assert Line("") == "\n";
  }

  /** The server's end of a connection: what has been put into its buffer. */
  class Connection {
    var buffer: string

    constructor ()
      ensures buffer == ""
    {
      buffer := "";
    }

    method Put(text: string)
      modifies this
      ensures buffer == old(buffer) + text
    {
      buffer := buffer + text;
    }

    method PutNewLine()
      modifies this
      ensures buffer == old(buffer) + "\n"
    {
      buffer := buffer + "\n";
    }

    /** Puts the data collection, one line for each item. */
    method PutData(items: seq<string>)
      modifies this
      ensures buffer == old(buffer) + DataLines(items)
    {
      for i := 0 to |items|
        invariant buffer == old(buffer) + DataLines(items[..i])
      {
        Put(DATA);
        Put(items[i]);
        PutNewLine();
        assert old(buffer) + DataLines(items[..i]) + (DATA + items[i]) + "\n"
            == old(buffer) + (DataLines(items[..i]) + (DATA + items[i]) + "\n");
        DataLinesSnoc(items[..i], items[i]);
        assert items[..i + 1] == items[..i] + [items[i]];
      }
      assert items[..|items|] == items;
    }

    /** Puts an event with empty data. */
    method PutEmptyData()
      modifies this
      ensures buffer == old(buffer) + DataLines([""])
    {
      Put(DATA);
      PutNewLine();
      assert DATA + "" == DATA;
    }

    /** Puts the last event ID if not empty. */
    method PutId(id: string)
      modifies this
      ensures buffer == old(buffer) + IdLine(id)
    {
      if id != "" {
        Put(LAST_EVENT_ID);
        Put(id);
        PutNewLine();
      }
    }

    method SendMessage(message: Message)
      modifies this
      ensures buffer == old(buffer) + Frame(Send(message))
    {
      PutData(message.data);
      if message.data == [] {
        PutEmptyData();
      }
      ghost var data := DataLines(Items(message));
      assert buffer == old(buffer) + data;
      PutId(message.lastEventId);
      // A blank line indicates the end of the event.
      PutNewLine();
      assert Line("") == "\n";
      assert old(buffer) + data + IdLine(message.lastEventId) + "\n"
          == old(buffer) + (data + IdLine(message.lastEventId) + "\n");
    }

    method SendTick()
      modifies this
      ensures buffer == old(buffer) + Frame(Tick)
    {
      Put(COMMENT);
      PutNewLine();
      PutNewLine();
    }
  }

  // ---------------------------------------------------------------- the client

  predicate EndsLine(c: char) {
    c == '\n' || c == '\r'
  }

  /** Contains no line end. */
  predicate Clean(s: string) {
    forall i | 0 <= i < |s| :: !EndsLine(s[i])
  }

  /** The length of the first line, or of everything when no line is complete. */
  function LineLength(stream: string): (n: nat)
    ensures n <= |stream| && Clean(stream[..n])
    ensures n < |stream| ==> EndsLine(stream[n])
  {
    if stream == "" || EndsLine(stream[0]) then 0 else LineLength(stream[1..]) + 1
  }

  /** What follows the first line: LF, CR, or CR LF ends it. */
  function AfterLine(stream: string): string
    requires LineLength(stream) < |stream|
  {
    var n := LineLength(stream);
    if stream[n] == '\r' && n + 1 < |stream| && stream[n + 1] == '\n' then stream[n + 2..] else stream[n + 1..]
  }

  /** What a line adds to the message under construction: of the known prefixes the first that matches counts, and
      the rest of the line is taken as it is, leading blanks included. */
  function ParsedLine(content: string, message: Message): Message {
    if COMMENT <= content then message
    else if DATA <= content then message.(data := message.data + [content[|DATA|..]])
    else if LAST_EVENT_ID <= content then message.(lastEventId := content[|LAST_EVENT_ID|..])
    else message
  }

  /** The messages dispatched on the complete lines of a stream: an empty line dispatches. */
  function Dispatched(message: Message, stream: string): seq<Message>
    decreases |stream|
  {
    var n := LineLength(stream);
    if n == |stream| then []
    else if n == 0 then [message] + Dispatched(EMPTY, AfterLine(stream))
    else Dispatched(ParsedLine(stream[..n], message), AfterLine(stream))
  }

  /** Tries the prefixes in order. */
  method ParseLine(content: string, message: Message) returns (result: Message)
    ensures result == ParsedLine(content, message)
  {
    result := message;
    if COMMENT <= content {
      return;
    }
    var prefixes := [DATA, LAST_EVENT_ID];
    var i := 0;
    while i < |prefixes| && !(prefixes[i] <= content)
      invariant 0 <= i <= |prefixes|
      invariant forall j | 0 <= j < i :: !(prefixes[j] <= content)
    {
      i := i + 1;
    }
    if i < |prefixes| {
      var value := content[|prefixes[i]|..];
      if prefixes[i] == DATA {
        result := result.(data := result.data + [value]);
      } else if prefixes[i] == LAST_EVENT_ID {
        assert prefixes[1] == LAST_EVENT_ID;
        result := result.(lastEventId := value);
      }
    } else {
      assert !(prefixes[0] <= content) && !(prefixes[1] <= content);
    }
  }

  /** Reads one line; `complete` is false when the stream holds no more complete line. */
  method ReadLine(stream: string) returns (complete: bool, line: string, rest: string)
    ensures complete <==> LineLength(stream) < |stream|
    ensures complete ==> line == stream[..LineLength(stream)] && rest == AfterLine(stream)
  {
    var n := 0;
    line := "";
    while n < |stream| && !EndsLine(stream[n])
      invariant 0 <= n <= |stream| && line == stream[..n]
      invariant LineLength(stream) == n + LineLength(stream[n..])
    {
      assert stream[n..][1..] == stream[n + 1..];
      line := line + [stream[n]];
      n := n + 1;
    }
    complete := n < |stream|;
    rest := "";
    if complete {
      var cr := stream[n] == '\r';
      n := n + 1;
      if cr && n < |stream| && stream[n] == '\n' {
        n := n + 1;
      }
      rest := stream[n..];
    }
  }

  /** The client's loop, over what the stream delivers before it is closed. */
  method ParseStream(stream: string) returns (dispatched: seq<Message>)
    ensures dispatched == Dispatched(EMPTY, stream)
  {
    dispatched := [];
    var message := EMPTY;
    var rest := stream;
    var complete, line, next := ReadLine(rest);
    while complete
      invariant complete <==> LineLength(rest) < |rest|
      invariant complete ==> line == rest[..LineLength(rest)] && next == AfterLine(rest)
      invariant dispatched + Dispatched(message, rest) == Dispatched(EMPTY, stream)
      decreases |rest|
    {
      if |line| == 0 {
        dispatched := dispatched + [message];
        message := EMPTY;
      } else {
        message := ParseLine(line, message);
      }
      rest := next;
      complete, line, next := ReadLine(rest);
    }
  }

  // ---------------------------------------------------------------- the round trip

  /** How a command reads at the client. */
  function ReadBack(command: Command): Message {
    match command
    case Send(message) => Message(Items(message), message.lastEventId)
    case Tick => EMPTY
  }

  function ReadBackAll(commands: seq<Command>): (messages: seq<Message>)
    ensures |messages| == |commands|
    ensures forall i | 0 <= i < |commands| :: messages[i] == ReadBack(commands[i])
  {
    if commands == [] then [] else [ReadBack(commands[0])] + ReadBackAll(commands[1..])
  }

  predicate CleanMessage(message: Message) {
    Clean(message.lastEventId) && forall i | 0 <= i < |message.data| :: Clean(message.data[i])
  }

  predicate CleanCommand(command: Command) {
    command.Send? ==> CleanMessage(command.message)
  }

  lemma {:induction false} LineLengthIs(line: string, rest: string)
    requires Clean(line)
    ensures LineLength(Line(line) + rest) == |line|
    decreases |line|
  {
    if line != "" {
      assert (Line(line) + rest)[1..] == Line(line[1..]) + rest;
      LineLengthIs(line[1..], rest);
    }
  }

  lemma {:induction false} FeedLine(message: Message, line: string, rest: string)
    requires Clean(line)
    ensures Dispatched(message, Line(line) + rest)
         == if line == "" then [message] + Dispatched(EMPTY, rest) else Dispatched(ParsedLine(line, message), rest)
  {
    var stream := Line(line) + rest;
    LineLengthIs(line, rest);
    assert stream[..|line|] == line && stream[|line| + 1..] == rest;
  }

  /** Comments, and lines that begin with none of the known prefixes, leave every message as it is; so they may stand
      anywhere in a stream without changing what is dispatched. */
  lemma {:induction false} OtherLinesIgnored(message: Message, line: string, rest: string)
    requires Clean(line) && line != ""
    requires line[0] == ':' || (!("data:" <= line) && !("id:" <= line))
    ensures ParsedLine(line, message) == message
    ensures Dispatched(message, Line(line) + rest) == Dispatched(message, rest)
  {
    assert line[0] == ':' ==> COMMENT <= line;
    FeedLine(message, line, rest);
  }

  lemma {:induction false} ParsedData(message: Message, item: string)
    ensures ParsedLine(DATA + item, message) == message.(data := message.data + [item])
    ensures DATA + item != ""
  {
    assert (DATA + item)[0] == 'd' && (DATA + item)[|DATA|..] == item;
  }

  /** The remark that leading blanks are trimmed is right about a line exactly if its value has none to lose: it does
      not begin with a blank, or holds nothing else. */
  lemma {:induction false} TrimmedExactly(message: Message, value: string)
    ensures ParsedLine(DATA + value, message) == message.(data := message.data + [TrimLeft(value, BLANKS)])
       <==> value == "" || value[0] !in BLANKS || forall i | 0 <= i < |value| :: value[i] in BLANKS
    ensures ParsedLine(LAST_EVENT_ID + value, message) == message.(lastEventId := TrimLeft(value, BLANKS))
       <==> value == "" || value[0] !in BLANKS || forall i | 0 <= i < |value| :: value[i] in BLANKS
  {
    TrimLeftKeeps(value, BLANKS);
    ParsedData(message, value);
    ParsedId(message, value);
    var trimmed := TrimLeft(value, BLANKS);
    assert (message.data + [value])[|message.data|] == value;
    assert (message.data + [trimmed])[|message.data|] == trimmed;
  }

  lemma {:induction false} FeedItem(message: Message, item: string, rest: string)
    requires Clean(item)
    ensures Dispatched(message, Line(DATA + item) + rest) == Dispatched(message.(data := message.data + [item]), rest)
  {
    ParsedData(message, item);
    assert Clean(DATA + item);
    FeedLine(message, DATA + item, rest);
  }

  lemma {:induction false} FirstLine(items: seq<string>, rest: string)
    requires items != []
    ensures DataLines(items) + rest == Line(DATA + items[0]) + (DataLines(items[1..]) + rest)
  {
  }

  /** `message` with more data items. */
  function With(message: Message, items: seq<string>): Message {
    message.(data := message.data + items)
  }

  lemma {:induction false} WithFirst(message: Message, items: seq<string>)
    requires items != []
    ensures With(With(message, [items[0]]), items[1..]) == With(message, items)
    ensures With(message, []) == message
  {
    assert message.data + [items[0]] + items[1..] == message.data + items;
  }

  lemma {:induction false} FeedData(message: Message, items: seq<string>, rest: string)
    requires forall i | 0 <= i < |items| :: Clean(items[i])
    ensures Dispatched(message, DataLines(items) + rest) == Dispatched(With(message, items), rest)
    decreases |items|
  {
    if items == [] {
      assert DataLines(items) + rest == rest && message.data + [] == message.data;
    } else {
      calc {
        Dispatched(message, DataLines(items) + rest);
        { FirstLine(items, rest); }
        Dispatched(message, Line(DATA + items[0]) + (DataLines(items[1..]) + rest));
        { FeedItem(message, items[0], DataLines(items[1..]) + rest); }
        Dispatched(With(message, [items[0]]), DataLines(items[1..]) + rest);
        { FeedData(With(message, [items[0]]), items[1..], rest); }
        Dispatched(With(With(message, [items[0]]), items[1..]), rest);
        { WithFirst(message, items); }
        Dispatched(With(message, items), rest);
      }
    }
  }

  lemma {:induction false} ParsedId(message: Message, id: string)
    ensures ParsedLine(LAST_EVENT_ID + id, message) == message.(lastEventId := id)
    ensures LAST_EVENT_ID + id != ""
  {
    assert (LAST_EVENT_ID + id)[0] == 'i' && (LAST_EVENT_ID + id)[|LAST_EVENT_ID|..] == id;
  }

  lemma {:induction false} FeedId(message: Message, id: string, rest: string)
    requires Clean(id) && message.lastEventId == ""
    ensures Dispatched(message, IdLine(id) + rest) == Dispatched(message.(lastEventId := id), rest)
  {
    if id == "" {
      assert IdLine(id) + rest == rest;
    } else {
      ParsedId(message, id);
      assert Clean(LAST_EVENT_ID + id);
      FeedLine(message, LAST_EVENT_ID + id, rest);
    }
  }

  lemma {:induction false} FeedMessage(message: Message, rest: string)
    requires CleanMessage(message)
    ensures Dispatched(EMPTY, Frame(Send(message)) + rest)
         == [Message(Items(message), message.lastEventId)] + Dispatched(EMPTY, rest)
  {
    var items, id := Items(message), message.lastEventId;
    var data, end := DataLines(items), Line("");
    assert data + IdLine(id) + end + rest == data + (IdLine(id) + (end + rest));
    FeedData(EMPTY, items, IdLine(id) + (end + rest));
    assert EMPTY.data + items == items;
    FeedId(Message(items, ""), id, end + rest);
    FeedLine(Message(items, id), "", rest);
  }

  lemma {:induction false} FeedTick(rest: string)
    ensures Dispatched(EMPTY, Frame(Tick) + rest) == [EMPTY] + Dispatched(EMPTY, rest)
  {
    assert Line(COMMENT) + Line("") + rest == Line(COMMENT) + (Line("") + rest);
    FeedLine(EMPTY, COMMENT, Line("") + rest);
    FeedLine(EMPTY, "", rest);
  }

  lemma {:induction false} FeedFrame(command: Command, rest: string)
    requires CleanCommand(command)
    ensures Dispatched(EMPTY, Frame(command) + rest) == [ReadBack(command)] + Dispatched(EMPTY, rest)
  {
    match command
    case Send(message) => FeedMessage(message, rest);
    case Tick => FeedTick(rest);
  }

  lemma {:induction false} FeedFrames(commands: seq<Command>)
    requires forall i | 0 <= i < |commands| :: CleanCommand(commands[i])
    ensures Dispatched(EMPTY, Frames(commands)) == ReadBackAll(commands)
  {
    if commands != [] {
      FeedFrame(commands[0], Frames(commands[1..]));
      FeedFrames(commands[1..]);
    }
  }

  /** Whatever is dispatched is free of line ends. */
  lemma {:induction false} DispatchedIsClean(message: Message, stream: string)
    requires CleanMessage(message)
    ensures forall i | 0 <= i < |Dispatched(message, stream)| :: CleanMessage(Dispatched(message, stream)[i])
    decreases |stream|
  {
    var n := LineLength(stream);
    if n < |stream| {
      DispatchedIsClean(if n == 0 then EMPTY else ParsedLine(stream[..n], message), AfterLine(stream));
    }
  }

  /** Exactly when the client sees what the server did: the same messages in the same order, an empty data list read
      as one empty item and a tick as an empty message. */
  lemma {:induction false} RoundTrip(commands: seq<Command>)
    ensures Dispatched(EMPTY, Frames(commands)) == ReadBackAll(commands)
       <==> forall i | 0 <= i < |commands| :: CleanCommand(commands[i])
  {
    if forall i | 0 <= i < |commands| :: CleanCommand(commands[i]) {
      FeedFrames(commands);
    } else {
      var i :| 0 <= i < |commands| && !CleanCommand(commands[i]);
      assert !CleanMessage(ReadBackAll(commands)[i]);
      DispatchedIsClean(EMPTY, Frames(commands));
    }
  }

  // ---------------------------------------------------------------- line ends

  /** The stream with another line end in place of LF. */
  function Reframed(stream: string, end: string): string {
    if stream == "" then ""
    else (if stream[0] == '\n' then end else [stream[0]]) + Reframed(stream[1..], end)
  }

  lemma {:induction false} ReframedClean(line: string, end: string)
    requires Clean(line)
    ensures Reframed(line, end) == line
    decreases |line|
  {
    if line != "" {
      ReframedClean(line[1..], end);
      assert line == [line[0]] + line[1..];
    }
  }

  lemma {:induction false} ReframedAppend(a: string, b: string, end: string)
    ensures Reframed(a + b, end) == Reframed(a, end) + Reframed(b, end)
    decreases |a|
  {
    if a == "" {
      assert a + b == b;
    } else {
      assert (a + b)[1..] == a[1..] + b;
      ReframedAppend(a[1..], b, end);
    }
  }

  lemma {:induction false} ReframedLine(line: string, rest: string, end: string)
    requires Clean(line)
    ensures Reframed(Line(line) + rest, end) == line + end + Reframed(rest, end)
  {
    ReframedClean(line, end);
    ReframedAppend(Line(line), rest, end);
    ReframedAppend(line, "\n", end);
    assert Reframed("\n", end) == end + "" == end;
  }

  /** The first line of a stream that ends its lines with CR or CR LF. */
  lemma {:induction false} FirstReframed(line: string, rest: string, end: string)
    requires Clean(line) && (end == "\r\n" || (end == "\r" && (rest == "" || rest[0] != '\n')))
    ensures LineLength(line + end + rest) == |line| && AfterLine(line + end + rest) == rest
    decreases |line|
  {
    var stream := line + end + rest;
    if line == "" {
      assert stream[0] == '\r';
    } else {
      assert stream[1..] == line[1..] + end + rest;
      FirstReframed(line[1..], rest, end);
      assert LineLength(stream) == |line|;
      assert stream[|line|] == '\r' && stream[|line| + |end|..] == rest;
    }
  }

  /** The first line of such a stream is read as if it ended with LF. */
  lemma {:induction false} FeedReframed(message: Message, line: string, rest: string, end: string)
    requires Clean(line) && (end == "\r\n" || (end == "\r" && (rest == "" || rest[0] != '\n')))
    ensures Dispatched(message, line + end + rest)
         == if line == "" then [message] + Dispatched(EMPTY, rest) else Dispatched(ParsedLine(line, message), rest)
  {
    FirstReframed(line, rest, end);
    assert (line + end + rest)[..|line|] == line;
  }

  lemma {:induction false} FirstLineFeed(stream: string) returns (line: string, rest: string)
    requires !Clean(stream) && forall i | 0 <= i < |stream| :: stream[i] != '\r'
    ensures Clean(line) && stream == Line(line) + rest && forall i | 0 <= i < |rest| :: rest[i] != '\r'
  {
    var n := LineLength(stream);
    assert stream[..|stream|] == stream;
    line, rest := stream[..n], stream[n + 1..];
  }

  /** A stream that ends its lines with CR, or with CR LF, is read as the one that ends them with LF. */
  lemma {:induction false} LineEndsDoNotMatter(message: Message, stream: string, end: string)
    requires end == "\r" || end == "\r\n"
    requires forall i | 0 <= i < |stream| :: stream[i] != '\r'
    ensures Dispatched(message, Reframed(stream, end)) == Dispatched(message, stream)
    decreases |stream|
  {
    if Clean(stream) {
      ReframedClean(stream, end);
    } else {
      var line, rest := FirstLineFeed(stream);
      ReframedLine(line, rest, end);
      assert Reframed(rest, end) != "" ==> Reframed(rest, end)[0] != '\n';
      FeedReframed(message, line, Reframed(rest, end), end);
      FeedLine(message, line, rest);
      LineEndsDoNotMatter(if line == "" then EMPTY else ParsedLine(line, message), rest, end);
    }
  }
}
