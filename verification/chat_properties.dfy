/** What the chat component guarantees over whole runs: the transcript is the
    last history load followed by the live lines received after it, the
    ambient colour is the colour of the last live line received, the dark-mode
    flag always agrees with that colour, frames that fail to parse leave no
    trace, and the socket's open and close notifications change only its
    ready state, which decides what a later send does. */
module ChatProperties {
  import opened Wrappers
  import JsString
  import HexColor
  import opened Chat

  /** The line an event delivers to the transcript, if it is a frame that parses. */
  function Delivered(e: Event): seq<Message> {
    if e.Inbound? && e.frame.Some? then [Message(e.frame.value.color, e.frame.value.message)]
    else []
  }

  /** Every live line the events deliver, in delivery order. */
  function Received(events: seq<Event>): seq<Message>
    decreases |events|
  {
    if events == [] then []
    else Received(events[..|events| - 1]) + Delivered(events[|events| - 1])
  }

  /** The position of the last successful history load, if any. */
  function LastLoad(events: seq<Event>): (r: Option<nat>)
    ensures r.Some? ==> r.value < |events| && events[r.value].HistoryLoaded?
    decreases |events|
  {
    if events == [] then None
    else if events[|events| - 1].HistoryLoaded? then Some(|events| - 1)
    else LastLoad(events[..|events| - 1])
  }

  /** `LastLoad` finds the last history load: none comes after the one it
      names, and when it names none there is none at all. */
  lemma {:induction false} LastLoadIsLast(events: seq<Event>)
    ensures var r := LastLoad(events);
            && (r.Some? ==> forall j :: r.value < j < |events| ==> !events[j].HistoryLoaded?)
            && (r.None? ==> forall j :: 0 <= j < |events| ==> !events[j].HistoryLoaded?)
    decreases |events|
  {
    if events != [] && !events[|events| - 1].HistoryLoaded? {
      var prefix := events[..|events| - 1];
      LastLoadIsLast(prefix);
      assert forall j :: 0 <= j < |prefix| ==> prefix[j] == events[j];
    }
  }

  /** The transcript as the code builds it: the last fetched history (or the
      starting transcript, if no load succeeded) followed by every live line
      delivered after it. Live lines delivered before a successful load are
      lost. */
  function Transcript(start: seq<Message>, events: seq<Event>): seq<Message> {
    var last := LastLoad(events);
    if last.Some? then Since(events, last.value) else start + Received(events)
  }

  /** The transcript a history load at position `i` leaves behind, followed
      by the live lines delivered after it. */
  function Since(events: seq<Event>, i: nat): seq<Message>
    requires i < |events| && events[i].HistoryLoaded?
  {
    Format(events[i].records) + Received(events[i + 1..])
  }

  /** The dark-mode flag agrees with the ambient colour. */
  predicate Coherent(s: State) {
    s.isDarkMode == HexColor.IsDark(s.color)
  }

  /** How one event moves the transcript. */
  lemma StepMessages(s: State, e: Event)
    ensures Step(s, e).next.messages ==
              if e.HistoryLoaded? then Format(e.records) else s.messages + Delivered(e)
  {
    match e
    case Inbound(data) =>
    case Send =>
    case _ =>
  }

  /** How one event moves the ambient colour. */
  lemma StepColor(s: State, e: Event)
    ensures Step(s, e).next.color == if Delivered(e) == [] then s.color else Delivered(e)[0].sender
  {
    match e
    case Inbound(data) =>
    case Send =>
    case _ =>
  }

  /** One event keeps the dark-mode flag in agreement with the colour. */
  lemma StepCoherent(s: State, e: Event)
    requires Coherent(s)
    ensures Coherent(Step(s, e).next)
  {
    match e
    case Inbound(data) =>
    case Send =>
    case _ =>
  }

  /** A socket frame touches neither the input, the loader nor the socket,
      and sends nothing. */
  lemma StepInbound(s: State, e: Event)
    requires e.Inbound?
    ensures var t := Step(s, e);
            && t.next.input == s.input && t.next.loader == s.loader
            && t.next.socket == s.socket && t.outbound == []
  {
  }

  lemma ReceivedSnoc(prefix: seq<Event>, e: Event, i: nat)
    requires i <= |prefix|
    ensures Received((prefix + [e])[i..]) == Received(prefix[i..]) + Delivered(e)
  {
    var tail := (prefix + [e])[i..];
    assert tail[..|tail| - 1] == prefix[i..];
    assert tail[|tail| - 1] == e;
  }

  lemma LastLoadSnoc(prefix: seq<Event>, e: Event)
    requires !e.HistoryLoaded?
    ensures LastLoad(prefix + [e]) == LastLoad(prefix)
  {
    assert (prefix + [e])[..|prefix|] == prefix;
  }

  /** Sequence concatenation regroups freely. Stated once so that the proofs
      below can name the regrouping they need. */
  lemma ConcatAssoc<T>(a: seq<T>, b: seq<T>, c: seq<T>)
    ensures (a + b) + c == a + (b + c)
  {
  }

  /** An event other than a history load extends the expected transcript by
      the line it delivers. */
  lemma TranscriptSnoc(start: seq<Message>, prefix: seq<Event>, e: Event)
    requires !e.HistoryLoaded?
    ensures Transcript(start, prefix + [e]) == Transcript(start, prefix) + Delivered(e)
  {
    LastLoadSnoc(prefix, e);
    match LastLoad(prefix)
    case Some(i) => SnocAfterLoad(start, prefix, e, i);
    case None => SnocWithoutLoad(start, prefix, e);
  }

  lemma TranscriptAfterLoad(start: seq<Message>, events: seq<Event>, i: nat)
    requires LastLoad(events) == Some(i)
    ensures Transcript(start, events) == Since(events, i)
  {
    assert LastLoad(events).value == i;
  }

  lemma TranscriptWithoutLoad(start: seq<Message>, events: seq<Event>)
    requires LastLoad(events) == None
    ensures Transcript(start, events) == start + Received(events)
  {
  }

  lemma SnocAfterLoad(start: seq<Message>, prefix: seq<Event>, e: Event, i: nat)
    requires LastLoad(prefix) == Some(i) && LastLoad(prefix + [e]) == Some(i)
    ensures Transcript(start, prefix + [e]) == Transcript(start, prefix) + Delivered(e)
  {
    var events := prefix + [e];
    TranscriptAfterLoad(start, events, i);
    TranscriptAfterLoad(start, prefix, i);
    var base, before := Format(prefix[i].records), Received(prefix[i + 1..]);
    assert Format(events[i].records) == base by {
      assert events[i] == prefix[i];
    }
    assert Received(events[i + 1..]) == before + Delivered(e) by {
      ReceivedSnoc(prefix, e, i + 1);
    }
    ConcatAssoc(base, before, Delivered(e));
  }

  lemma SnocWithoutLoad(start: seq<Message>, prefix: seq<Event>, e: Event)
    requires LastLoad(prefix).None? && LastLoad(prefix + [e]).None?
    ensures Transcript(start, prefix + [e]) == Transcript(start, prefix) + Delivered(e)
  {
    var events := prefix + [e];
    TranscriptWithoutLoad(start, events);
    TranscriptWithoutLoad(start, prefix);
    assert Received(events) == Received(prefix) + Delivered(e) by {
      ReceivedSnoc(prefix, e, 0);
      assert events[0..] == events && prefix[0..] == prefix;
    }
    ConcatAssoc(start, Received(prefix), Delivered(e));
  }

  /** A history load resets the expected transcript to what it fetched. */
  lemma TranscriptReset(start: seq<Message>, prefix: seq<Event>, e: Event)
    requires e.HistoryLoaded?
    ensures Transcript(start, prefix + [e]) == Format(e.records)
  {
    var events := prefix + [e];
    assert events[|events|..] == [];
  }

  /** The transcript after any run is the last successful history load (the
      starting transcript if there is none) followed, in delivery order, by
      exactly the live lines delivered after that load. */
  lemma {:induction false} TranscriptLaw(s: State, events: seq<Event>)
    ensures Run(s, events).next.messages == Transcript(s.messages, events)
    decreases |events|
  {
    if events != [] {
      var prefix := events[..|events| - 1];
      var e := events[|events| - 1];
      assert events == prefix + [e];
      TranscriptLaw(s, prefix);
      StepMessages(Run(s, prefix).next, e);
      if e.HistoryLoaded? {
        TranscriptReset(s.messages, prefix, e);
      } else {
        TranscriptSnoc(s.messages, prefix, e);
      }
    }
  }

  /** A successful history load replaces the transcript: live lines that
      arrived before it are discarded. */
  lemma EarlyLinesDiscarded(s: State, f: Frame, records: seq<Record>)
    ensures Run(s, [Inbound(Some(f)), HistoryLoaded(records)]).next.messages == Format(records)
  {
    var events := [Inbound(Some(f)), HistoryLoaded(records)];
    TranscriptLaw(s, events);
    assert events[2..] == [];
  }

  /** The ambient colour after any run is the colour of the last live line
      delivered; with none delivered it is the starting colour. */
  lemma {:induction false} AmbientColorLaw(s: State, events: seq<Event>)
    ensures var lines := Received(events);
            Run(s, events).next.color == if lines == [] then s.color else lines[|lines| - 1].sender
    decreases |events|
  {
    if events != [] {
      var prefix := events[..|events| - 1];
      var e := events[|events| - 1];
      assert Received(events) == Received(prefix) + Delivered(e);
      AmbientColorLaw(s, prefix);
      StepColor(Run(s, prefix).next, e);
    }
  }

  /** Every event keeps the dark-mode flag in agreement with the colour. */
  lemma {:induction false} RunKeepsCoherent(s: State, events: seq<Event>)
    requires Coherent(s)
    ensures Coherent(Run(s, events).next)
    decreases |events|
  {
    if events != [] {
      var prefix := events[..|events| - 1];
      RunKeepsCoherent(s, prefix);
      StepCoherent(Run(s, prefix).next, events[|events| - 1]);
    }
  }

  /** The component starts coherent: the colour "" is not dark and the flag
      starts false. */
  lemma InitialCoherent()
    ensures Coherent(Initial)
  {
    HexColor.EmptyIsNotDark();
  }

  /** Running one more event after a run. */
  lemma RunSnoc(s: State, events: seq<Event>, e: Event)
    ensures var before := Run(s, events);
            var last := Step(before.next, e);
            Run(s, events + [e]) == Transition(last.next, before.outbound + last.outbound)
  {
    assert (events + [e])[..|events|] == events;
  }

  /** Running two stretches of events one after the other is running their
      concatenation. */
  lemma {:induction false} RunAppend(s: State, a: seq<Event>, b: seq<Event>)
    ensures var mid := Run(s, a);
            var rest := Run(mid.next, b);
            Run(s, a + b) == Transition(rest.next, mid.outbound + rest.outbound)
    decreases |b|
  {
    if b == [] {
      assert a + b == a;
    } else {
      var init, e := b[..|b| - 1], b[|b| - 1];
      assert b == init + [e];
      assert a + b == (a + init) + [e];
      var mid := Run(s, a);
      var restBefore := Run(mid.next, init);
      RunAppend(s, a, init);
      RunSnoc(s, a + init, e);
      RunSnoc(mid.next, init, e);
      ConcatAssoc(mid.outbound, restBefore.outbound, Step(restBefore.next, e).outbound);
    }
  }

  /** A frame that fails to parse throws before any setter runs: it changes
      nothing and sends nothing. */
  lemma UnparsedFrameQuiet(s: State, e: Event)
    requires e == Inbound(None)
    ensures Step(s, e) == Transition(s, [])
  {
  }

  /** A frame that fails to parse can be deleted from any run without
      changing its final state or the frames it sends. */
  lemma SilentEventErasable(s: State, a: seq<Event>, e: Event, b: seq<Event>)
    requires e == Inbound(None)
    ensures Run(s, a + [e] + b) == Run(s, a + b)
  {
    var before := Run(s, a);
    assert Run(s, a + [e]) == before by {
      RunSnoc(s, a, e);
      UnparsedFrameQuiet(before.next, e);
      assert before.outbound + [] == before.outbound;
    }
    RunAppend(s, a + [e], b);
    RunAppend(s, a, b);
  }

  /** A run of socket frames alone appends exactly the frames that parse, in
      order, leaves the input, loader and socket untouched and sends nothing. */
  lemma InboundOnly(s: State, events: seq<Event>)
    requires forall k :: 0 <= k < |events| ==> events[k].Inbound?
    ensures Run(s, events).next.messages == s.messages + Received(events)
    ensures Run(s, events).next.input == s.input
    ensures Run(s, events).next.loader == s.loader
    ensures Run(s, events).next.socket == s.socket
    ensures Run(s, events).outbound == []
  {
    TranscriptLaw(s, events);
    InboundKeepsRest(s, events);
  }

  lemma {:induction false} InboundKeepsRest(s: State, events: seq<Event>)
    requires forall k :: 0 <= k < |events| ==> events[k].Inbound?
    ensures Run(s, events).next.input == s.input
    ensures Run(s, events).next.loader == s.loader
    ensures Run(s, events).next.socket == s.socket
    ensures Run(s, events).outbound == []
    decreases |events|
  {
    if events != [] {
      var prefix := events[..|events| - 1];
      assert forall k :: 0 <= k < |prefix| ==> prefix[k] == events[k];
      InboundKeepsRest(s, prefix);
      StepInbound(Run(s, prefix).next, events[|events| - 1]);
    }
  }

  /** The send guard looks only at the socket reference, which closing the
      socket does not clear: text typed after the socket has closed is still
      handed to `ws.send`, which drops it without an error, and the input is
      cleared as if it had gone out. */
  lemma SendAfterClose(s: State, text: string)
    requires s.socket != NoSocket && !JsString.AllWhitespace(text)
    ensures var closed := Step(s, Close).next;
            var typed := Step(closed, Edit(text)).next;
            Step(typed, Send).outbound == [JsString.Trim(text)]
  {
  }

  /** Before `onopen`, `ws.send` throws: the line typed is neither sent nor
      cleared, and the loader raised just before the call stays up. */
  lemma SendBeforeOpen(s: State, text: string)
    requires !JsString.AllWhitespace(text)
    ensures var mounted := Step(s, Mount).next;
            var typed := Step(mounted, Edit(text)).next;
            var t := Step(typed, Send);
            t.outbound == [] && t.next.input == text && t.next.loader
  {
  }

  /** The history scenario: one fetched record becomes the whole transcript. */
  lemma HistoryScenario(s: State)
    ensures Step(s, HistoryLoaded([Record("#112233", "hi")])).next.messages
            == [Message("#112233", "hi")]
  {
  }
}
