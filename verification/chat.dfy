/** The chat component's state and its event handlers. React state is one
    immutable record; each callback the component registers (the history
    fetch's continuation, the socket's `onopen`, `onmessage` and `onclose`,
    the input's `onChange`, and `sendMessage`) is a pure transition from one
    record to the next, which may also hand a frame to the socket. The
    scheduler that interleaves these callbacks is an arbitrary sequence of
    events processed one at a time. */
module Chat {
  import opened Wrappers
  import JsString
  import HexColor

  /** One transcript line; `sender` doubles as the line's display colour. */
  datatype Message = Message(sender: string, content: string)

  /** One element of the JSON array the history endpoint returns. */
  datatype Record = Record(sender: string, content: string)

  /** The decoded body of an inbound socket frame. */
  datatype Frame = Frame(color: string, message: string)

  /** `ws.current` and, once it is set, the socket's ready state. Under the
      WebSocket standard `send` throws while the socket is still connecting,
      and silently drops the data once it is closing or closed; those last two
      behave alike here and share `Disconnected`. */
  datatype Socket = NoSocket | Connecting | Connected | Disconnected

  datatype State = State(
    messages: seq<Message>,
    input: string,
    color: string,
    isDarkMode: bool,
    loader: bool,
    socket: Socket)

  datatype Event =
    | Mount                              // the mount effect starts the fetch and opens a socket
    | HistoryLoaded(records: seq<Record>) // the fetch and its JSON body succeeded
    | HistoryFailed                      // the fetch, its body or the `map` threw
    | Open                               // the socket's `onopen`: the handshake completed
    | Inbound(frame: Option<Frame>)      // the socket's `onmessage`; `None` when `JSON.parse` throws
    | Close                              // the socket's `onclose`: the connection is gone
    | Edit(text: string)                 // the input's `onChange`
    | Send                               // `sendMessage`, from the button or the Enter key

  /** The state after one event, and the frames handed to `ws.send` meanwhile. */
  datatype Transition = Transition(next: State, outbound: seq<string>)

  /** The state right after the first render. */
  const Initial := State([], "", "", false, false, NoSocket)

  /** The mount effect: `getData` raises the loader before its first `await`,
      and the socket reference is set to a socket that is still connecting. */
  function OnMount(s: State): (r: State)
    ensures r.loader && r.socket == Connecting
    ensures r.messages == s.messages && r.input == s.input
    ensures r.color == s.color && r.isDarkMode == s.isDarkMode
  {
    s.(loader := true, socket := Connecting)
  }

  /** `data.map(msg => ({ sender: msg.sender, content: msg.content }))`. */
  function Format(records: seq<Record>): (ms: seq<Message>)
    ensures |ms| == |records|
    ensures forall i :: 0 <= i < |ms| ==>
              ms[i].sender == records[i].sender && ms[i].content == records[i].content
  {
    if records == [] then []
    else [Message(records[0].sender, records[0].content)] + Format(records[1..])
  }

  /** A successful history load: the loader drops and the transcript becomes
      the fetched list, whatever it held before. */
  function OnHistoryLoaded(s: State, records: seq<Record>): (r: State)
    ensures !r.loader
    ensures |r.messages| == |records|
    ensures forall i :: 0 <= i < |records| ==>
              r.messages[i] == Message(records[i].sender, records[i].content)
    ensures r.input == s.input && r.color == s.color
    ensures r.isDarkMode == s.isDarkMode && r.socket == s.socket
  {
    s.(loader := false, messages := Format(records))
  }

  /** A failed history load only drops the loader. */
  function OnHistoryFailed(s: State): (r: State)
    ensures !r.loader
    ensures r.messages == s.messages && r.input == s.input && r.color == s.color
    ensures r.isDarkMode == s.isDarkMode && r.socket == s.socket
  {
    s.(loader := false)
  }

  /** `onmessage`. A frame that parses appends one line at the end of the
      transcript and becomes the ambient colour; a frame that does not parse
      throws before any setter runs, so nothing changes. */
  function OnMessage(s: State, data: Option<Frame>): (r: State)
    ensures data.None? ==> r == s
    ensures data.Some? ==>
              && |r.messages| == |s.messages| + 1
              && r.messages[..|s.messages|] == s.messages
              && r.messages[|s.messages|] == Message(data.value.color, data.value.message)
              && r.color == data.value.color
              && r.isDarkMode == HexColor.IsDark(data.value.color)
    ensures r.input == s.input && r.loader == s.loader && r.socket == s.socket
  {
    match data
    case None => s
    case Some(f) =>
      s.(color := f.color,
         isDarkMode := HexColor.IsDark(f.color),
         messages := s.messages + [Message(f.color, f.message)])
  }

  /** `sendMessage`. It acts only when the socket reference is set and the
      trimmed input is not empty, and then raises the loader first. While the
      socket is still connecting, `ws.send` throws, so nothing is sent, the
      input is kept and the loader stays up. Otherwise, open or already
      closed, the socket takes the trimmed input, the input is cleared and the
      loader ends down. The transcript is never touched: a sent line shows up
      only if the server echoes it back. */
  function SendMessage(s: State): (t: Transition)
    ensures t.next.messages == s.messages
    ensures t.next.color == s.color && t.next.isDarkMode == s.isDarkMode
    ensures t.next.socket == s.socket
    ensures s.socket == NoSocket || JsString.AllWhitespace(s.input) ==> t == Transition(s, [])
    ensures s.socket == Connecting && !JsString.AllWhitespace(s.input) ==>
              t.outbound == [] && t.next.input == s.input && t.next.loader
    ensures (s.socket == Connected || s.socket == Disconnected) && !JsString.AllWhitespace(s.input) ==>
              && |t.outbound| == 1
              && JsString.IsTrimmed(t.outbound[0])
              && t.outbound[0] == JsString.Trim(s.input)
              && t.next.input == ""
              && !t.next.loader
  {
    var text := JsString.Trim(s.input);
    if s.socket == NoSocket || text == [] then
      Transition(s, [])
    else if s.socket == Connecting then
      Transition(s.(loader := true), [])
    else
      Transition(s.(input := "", loader := false), [text])
  }

  /** `onopen` fires only on a socket that is connecting. */
  function OnOpen(s: State): (r: State)
    ensures r == s.(socket := r.socket)
    ensures s.socket == Connecting ==> r.socket == Connected
    ensures s.socket != Connecting ==> r == s
  {
    if s.socket == Connecting then s.(socket := Connected) else s
  }

  /** `onclose` fires only on a socket that exists, and leaves it closed. The
      reference itself stays set. */
  function OnClose(s: State): (r: State)
    ensures r == s.(socket := r.socket)
    ensures s.socket != NoSocket ==> r.socket == Disconnected
    ensures s.socket == NoSocket ==> r == s
  {
    if s.socket == NoSocket then s else s.(socket := Disconnected)
  }

  /** One event. Only `sendMessage` hands anything to the socket; the input's
      `onChange` replaces the input and nothing else; opening and closing the
      socket change only its ready state. */
  function Step(s: State, e: Event): (t: Transition)
    ensures e != Send ==> t.outbound == []
    ensures |t.outbound| <= 1
    ensures t.outbound == [] || JsString.IsTrimmed(t.outbound[0])
    ensures e.Edit? ==> t.next == s.(input := e.text)
    ensures e == Open || e == Close ==> t.next == s.(socket := t.next.socket)
  {
    match e
    case Mount => Transition(OnMount(s), [])
    case HistoryLoaded(records) => Transition(OnHistoryLoaded(s, records), [])
    case HistoryFailed => Transition(OnHistoryFailed(s), [])
    case Open => Transition(OnOpen(s), [])
    case Inbound(data) => Transition(OnMessage(s, data), [])
    case Close => Transition(OnClose(s), [])
    case Edit(text) => Transition(s.(input := text), [])
    case Send => SendMessage(s)
  }

  /** How many times `sendMessage` is called in a run. */
  function SendCount(events: seq<Event>): nat
    decreases |events|
  {
    if events == [] then 0
    else SendCount(events[..|events| - 1]) + (if events[|events| - 1] == Send then 1 else 0)
  }

  /** The state after a sequence of events, and every frame sent on the way,
      in order. Whatever happens, only `sendMessage` sends, at most one frame
      per call, and each frame is a non-empty string with no whitespace at
      either end. */
  function Run(s: State, events: seq<Event>): (t: Transition)
    ensures |t.outbound| <= SendCount(events)
    ensures AllTrimmed(t.outbound)
    decreases |events|
  {
    if events == [] then Transition(s, [])
    else
      var before := Run(s, events[..|events| - 1]);
      var e := events[|events| - 1];
      var last := Step(before.next, e);
      assert SendCount(events) == SendCount(events[..|events| - 1]) + (if e == Send then 1 else 0);
      AllTrimmedAppend(before.outbound, last.outbound);
      Transition(last.next, before.outbound + last.outbound)
  }

  /** Every frame in the log is non-empty with no whitespace at either end. */
  predicate AllTrimmed(frames: seq<string>) {
    forall k :: 0 <= k < |frames| ==> JsString.IsTrimmed(frames[k])
  }

  lemma AllTrimmedAppend(a: seq<string>, b: seq<string>)
    requires AllTrimmed(a) && (b == [] || (|b| == 1 && JsString.IsTrimmed(b[0])))
    ensures AllTrimmed(a + b)
  {
  }
}
