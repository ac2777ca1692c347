# Chat client core, modelled in Dafny

This project models the logic inside the `Chat` React component of a small
real-time chat client. The component loads the message history once over
HTTP. It then keeps one WebSocket open, appends every inbound frame that parses to
the transcript, and sends the trimmed input line when the user presses Enter or
the button. Each such frame also sets a page-wide "ambient" colour, and a
luminance test (`isDark`) on that colour decides between light and dark text.

The React state becomes one immutable record, `Chat.State`. Every callback the
component registers becomes a pure transition over that record: the history
fetch's continuation, the socket's `onopen`, `onmessage` and `onclose`, the
input's `onChange`, and `sendMessage`. `Chat.Step` dispatches one `Chat.Event`.
`Chat.Run` folds an arbitrary sequence of events, which stands for any
interleaving the browser's event loop can produce. It collects the frames
handed to `ws.send` in an outbound log.

Files and modules:

- `wrappers.dfy` (`Wrappers`): `Option`, for a frame whose `JSON.parse` threw
  and a channel whose `parseInt` gave `NaN`.
- `js_string.dfy` (`JsString`): JavaScript's whitespace class, `trim` and `slice`.
- `hex_color.dfy` (`HexColor`): `parseInt(_, 16)` and `isDark`.
- `chat.dfy` (`Chat`): the state, the events, the handlers, `Step` and `Run`.
- `chat_properties.dfy` (`ChatProperties`): reference definitions of the
  expected transcript and colour, and lemmas connecting them to `Run`.

Behaviours of the code that the model keeps and the lemmas make explicit:

- The send guard (line 84) checks only that `ws.current` is set, and
  `onclose` never clears it. The socket's ready state, as the WebSocket
  standard defines it, still decides what `ws.send` (line 86) does, so the
  model tracks it in `Chat.Socket`:
  - while the socket is still connecting, `ws.send` throws. Line 85 has
    already raised the loader, lines 87-88 never run, nothing is sent and the
    input is kept (`ChatProperties.SendBeforeOpen`);
  - once the socket has closed, `ws.send` drops the data without an error, so
    the input is cleared as if the line had gone out
    (`ChatProperties.SendAfterClose`).
- A successful history load replaces the transcript with the fetched list
  (line 39), so live messages that arrived before the load completes are lost
  (`ChatProperties.EarlyLinesDiscarded`).
- A failed load only lowers the loader (lines 40-43), so the transcript keeps
  whatever live messages already arrived.
- `onopen` and `onclose` only log (lines 51-53, 65-67); their only effect is
  the socket's own ready state.

## Model

| member | source | states |
|---|---|---|
| JsString.Trim | src/components/Chat.tsx:84-86 | `input.trim()` returns a slice of the input with only whitespace before and after it. It is empty exactly when the input is all whitespace; otherwise it has no whitespace at either end |
| JsString.TrimIdempotent | src/components/Chat.tsx:84-86 | trimming the frame that goes out a second time changes nothing |
| JsString.TrimStart | src/components/Chat.tsx:18-20 | the whitespace `parseInt` skips: the rest of the string after an all-whitespace prefix, starting with a non-whitespace character, and the string itself when it does not start with whitespace |
| JsString.Slice | src/components/Chat.tsx:18-20 | `slice(from, to)` is the substring when both bounds fit, the rest of the string when only `to` runs past the end, and "" when the range is empty or reversed or `from` is past the end; never longer than the string |
| HexColor.DigitValue | src/components/Chat.tsx:18-20 | a hexadecimal digit of either case is worth less than 16, and less than 10 exactly when it is a decimal digit |
| HexColor.DigitValues | src/components/Chat.tsx:18-20 | every digit of radix 16 is worth its position in the digit alphabet: `0`-`9` are 0-9, and `a`-`f` and `A`-`F` alike are 10-15 |
| HexColor.DigitsValue | src/components/Chat.tsx:18-20 | n hexadecimal digits denote a number below 16^n |
| HexColor.ParseHex | src/components/Chat.tsx:18-20 | `parseInt(s, 16)` (whitespace, sign, `0x` prefix, longest digit run, `NaN` when there is no digit) yields a number of magnitude below 16^|s| |
| HexColor.ParseDigits | src/components/Chat.tsx:18-20 | a non-empty string of hexadecimal digits parses to the number it denotes |
| HexColor.ParseTwoDigits | src/components/Chat.tsx:18-20 | two hexadecimal digits parse to 16 times the first plus the second |
| HexColor.Channel | src/components/Chat.tsx:18-20 | each channel of a `#RRGGBB` colour lies in 0..255 |
| HexColor.ChannelParses | src/components/Chat.tsx:18-20 | on a well-formed colour, `parseInt(hex.slice(i, i + 2), 16)` is exactly the channel those two digits spell |
| HexColor.IsDark | src/components/Chat.tsx:17-23 | `isDark` is false whenever a channel reads as `NaN`; in particular any colour shorter than six characters, such as `#000`, is never dark, because `slice(5, 7)` of it is "" |
| HexColor.IsDarkExact | src/components/Chat.tsx:17-23 | on a well-formed colour, `isDark` holds if and only if `299r + 587g + 114b < 128000` |
| HexColor.BlackIsDark | src/components/Chat.tsx:17-23 | `#000000` is dark |
| HexColor.WhiteIsNotDark | src/components/Chat.tsx:17-23 | `#ffffff` is not dark |
| HexColor.EmptyIsNotDark | src/components/Chat.tsx:17-23 | the initial colour "" parses to `NaN` channels and is not dark |
| Chat.OnMount | src/components/Chat.tsx:46-49 | mounting raises the loader (line 27, before the first `await`) and sets the socket reference to a socket that is still connecting; transcript, input and colour are untouched |
| Chat.Format | src/components/Chat.tsx:33-38 | the fetched records become messages of the same length and order, with `sender` and `content` copied field by field |
| Chat.OnHistoryLoaded | src/components/Chat.tsx:31-39 | a successful load lowers the loader and replaces the transcript by exactly the fetched list; input, colour, dark flag and socket are untouched |
| Chat.OnHistoryFailed | src/components/Chat.tsx:40-43 | a failed load lowers the loader and changes nothing else |
| Chat.OnMessage | src/components/Chat.tsx:55-62 | a parsed frame appends exactly one `Message(color, message)` after the unchanged earlier entries, sets the colour to the frame's and the dark flag to `isDark` of it; an unparsable frame changes nothing |
| Chat.SendMessage | src/components/Chat.tsx:83-90 | with no socket reference or an all-whitespace input, nothing is sent and nothing changes. While the socket is still connecting, `ws.send` throws after the loader went up: nothing is sent, the input is kept and the loader stays up. Otherwise (open, or already closed) exactly one frame, the trimmed input, is handed to `ws.send`, the input is cleared and the loader ends down. The transcript and the socket never change (no local echo) |
| Chat.OnOpen | src/components/Chat.tsx:51-53 | `onopen` only logs; the socket it fires on moves from connecting to open, and nothing else changes |
| Chat.OnClose | src/components/Chat.tsx:65-67 | `onclose` only logs; the socket is closed from then on, the reference stays set, and nothing else changes |
| Chat.Step | src/components/Chat.tsx:46-90 | one event: only `sendMessage` hands anything to the socket, and at most one trimmed frame; the input's `onChange` (line 126) replaces the input and nothing else; `onopen` and `onclose` change nothing but the socket's ready state |
| Chat.Run | src/components/Chat.tsx:83-90 | over any run, at most one frame is sent per `sendMessage` call and every frame sent is non-empty with no whitespace at either end |
| ChatProperties.StepMessages | src/components/Chat.tsx:39-62 | a history load sets the transcript to the fetched list; every other event appends what it delivers, which is one line for a parsed frame and nothing otherwise |
| ChatProperties.StepColor | src/components/Chat.tsx:57 | only a parsed frame changes the colour, to its own |
| ChatProperties.StepCoherent | src/components/Chat.tsx:57-58 | every event keeps the dark flag equal to `isDark` of the colour |
| ChatProperties.StepInbound | src/components/Chat.tsx:55-62 | a socket frame leaves input, loader and socket alone and sends nothing |
| ChatProperties.UnparsedFrameQuiet | src/components/Chat.tsx:55-56 | a frame whose `JSON.parse` throws leaves the state unchanged and sends nothing |
| ChatProperties.TranscriptLaw | src/components/Chat.tsx:33-62 | after any run, the transcript is the last successfully loaded history (or the starting transcript if none) followed, in order, by exactly the parsed frames delivered after it |
| ChatProperties.EarlyLinesDiscarded | src/components/Chat.tsx:39 | a live line that arrives before the history load completes is gone once the load replaces the transcript |
| ChatProperties.AmbientColorLaw | src/components/Chat.tsx:57 | after any run, the colour is that of the last parsed frame delivered, or the starting colour if none was |
| ChatProperties.RunKeepsCoherent | src/components/Chat.tsx:57-58 | from a state whose dark flag matches its colour, every run ends in such a state |
| ChatProperties.InitialCoherent | src/components/Chat.tsx:11-12 | the initial state (colour "", dark flag false) already has a dark flag that matches its colour |
| ChatProperties.SilentEventErasable | src/components/Chat.tsx:55-56 | deleting a frame that fails to parse from anywhere in a run changes neither the final state nor the frames sent |
| ChatProperties.InboundOnly | src/components/Chat.tsx:55-62 | a run of socket frames alone appends exactly the parsed frames in order, leaves input, loader and socket unchanged and sends nothing |
| ChatProperties.SendAfterClose | src/components/Chat.tsx:84-88 | after `onclose`, typing a non-blank line and sending still hands the trimmed line to `ws.send`, because the guard tests only the reference, and `send` on a closed socket does not throw |
| ChatProperties.SendBeforeOpen | src/components/Chat.tsx:84-88 | right after mounting, before `onopen`, sending a non-blank line sends nothing: `ws.send` throws, the input is kept and the loader raised at line 85 stays up |
| ChatProperties.HistoryScenario | src/components/Chat.tsx:33-39 | fetching `[{"sender":"#112233","content":"hi"}]` yields exactly that one-line transcript |

## Left out

- JSX rendering, Tailwind class selection and the per-message `isDark(msg.sender)` styling (lines 92-143) are presentation. Only the input's `onChange` (line 126) is kept, as the `Edit` event.
- The background-colour effect (line 75) and `scrollIntoView` (line 80) are DOM side effects.
- The `fetch`, `response.json()`, `WebSocket` construction and `ws.send` calls (lines 28-31, 49, 86) are network I/O. They appear as the `Mount`, `HistoryLoaded`, `HistoryFailed`, `Open`, `Inbound` and `Close` events and as the outbound log. The `ws.close` call (line 70) belongs to the unmount cleanup below and has no event.
- The unmount cleanup (lines 69-71) closes the socket as the component goes away. None of the component's handlers matter after that, so it has no event.
- The `console` diagnostics (lines 41, 52, 66) are logging only.
- React scheduling, batching and async interleaving are covered by letting a run be any sequence of events, processed one at a time.
- `sendMessage` raises and lowers the loader within one handler (lines 85, 88). Only the net effect is modelled: the loader ends down when `ws.send` returns and stays up when it throws.
- The exception `ws.send` raises before `onopen` propagates out of the click or key handler. The model keeps the state it leaves behind and does not model the error report.
- The CLOSING and CLOSED ready states are merged into `Disconnected`, since `send` treats them alike; `bufferedAmount` and the data a closed socket drops are not modelled.
- HexColor.IsDark: the luminance test uses exact integers scaled by 1000 instead of IEEE-754 doubles. The two can disagree only when the luminance is within rounding of exactly 128.
- HexColor.IsDarkExact: the luminance characterisation is stated only for well-formed seven-character colours. About malformed ones only `HexColor.IsDark`'s own contract (every channel parses, at least six characters) and `EmptyIsNotDark` are proved.
- `Frame` and `Record` have two string fields, so frames and history elements with missing or non-string fields are not representable. In JavaScript:
  - a frame without `message` appends a line whose content is `undefined` (lines 59-61);
  - a frame whose `color` is missing, `null`, or a number, boolean or object without a `slice` method queues `setColor` with that value (line 57), then `isDark` throws a `TypeError` at `hexColor.slice` (lines 18, 58). So the colour changes, the dark flag keeps its old value and no line is appended;
  - a frame whose `color` is an array does not throw: `Array.prototype.slice` returns arrays, and `parseInt` reads their string form (such as `"1,2"`). So `isDark` returns normally, the colour and dark flag are set, and a line whose sender is the array is appended (lines 57-61);
  - a frame that parses to `null` throws at line 57, before any setter runs;
  - history elements whose `sender` or `content` is missing or not a string are copied through unchanged by lines 33-38.
- JsString.Slice: it indexes Unicode scalar values where JavaScript indexes UTF-16 code units, so `slice`, and with it `HexColor.IsDark`, differ from JavaScript on colours that hold a character outside the Basic Multilingual Plane. The server's colour is not validated (lines 57-58). For example, `"😀00000"` is seven code units in JavaScript: `slice(1, 3)` is a lone low surrogate followed by `0`, which `parseInt` reads as `NaN`, so `isDark` is false. In the model the channels are `00`, `00` and `0`, so `IsDark` holds.
- JsString.Trim: characters are Unicode scalar values rather than UTF-16 code units. This matters only for text outside the Basic Multilingual Plane, and no whitespace character lies there.
- Chat.Run: it bounds the outbound log by the number of `sendMessage` calls rather than naming each frame. Each individual send is characterised exactly by `Chat.SendMessage`.
