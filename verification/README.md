# monk-chat room engine, in Dafny

monk-chat is a small peer-to-peer chat client. The user joins rooms by
name. Each room is a WebRTC mesh reached through a rendezvous server at
`ws://127.0.0.1:3536/<url-encoded name>`. Inside a room, a peer that
connects is greeted with the text `hello friend!`. Each packet received
adds its sender to the room's roster, with a random palette colour. The
packet's text is logged as a message unless it is that greeting. The
local user's messages are broadcast to every connected peer.

This project models the state machine behind all of this (`src/main.rs`):

- **`utf8.dfy`** (`Utf8`): how text becomes bytes (`String::into_bytes`)
  and how bytes become text (`String::from_utf8_lossy`, with the
  replacement rules of the Rust standard library). It proves that decoding
  undoes encoding.
- **`urlencoding.dfy`** (`UrlEncoding`): `urlencoding::encode`, which
  percent-encodes the UTF-8 bytes of a name and keeps the unreserved
  ASCII bytes. It proves that the encoding is injective.
- **`model.dfy`** (`ChatModel`): members, messages, rooms and their
  transport as values, plus `Member::new`, `Room::new` and the label
  under which the message view shows a message's author. `RoomValid` is
  the invariant every room keeps.
- **`session.dfy`** (`Session`): what one tick does to one room.
  - `handle_peers` greets each connecting peer.
  - `accept_messages` grows the roster and the log.
  - The Send button broadcasts and logs the input.

  Each is a method with the client's loop. It is proved equal to a
  function on the room, and the properties are proved about those
  functions.
- **`registry.dfy`** (`Registry`): the room list (`AppState`).
  - The Connect button joins a new room or re-focuses a joined one.
  - A click in the Rooms list focuses a room.
  - The per-tick systems run over every room.

  The class methods are proved against the functions `JoinOrFocus` and
  `Focused`, and they keep `RegistryValid`. That invariant says at most
  one window is open, room URLs are unique and every room is valid.
- **`scenarios.dfy`** (`Scenarios`): whole conversations, stated for any
  room name, peer and colour draw.

Things the source leaves to its environment are parameters:

- The current time is a `date` string.
- The random colour draw is a palette index: `pick` for one member,
  `choose` for the draws of a batch.
- The socket's view of the network is a `Transport` value. It holds the
  connected peers, the buffered peer events and packets, and a log of
  every send.

Peer ids are the 36-character text of a uuid, so a peer's member id never
equals the local user's id `You`.

The greeting is recognised by its text alone. Nothing stops the local user
from typing `hello friend!`. That message is logged locally and broadcast,
and every receiving client drops it from its log
(`Scenarios.TypedGreetingIsNotDelivered`). So the room invariant says a
greeting-text message can only be the local user's, not that none exists.

Two different names could only reach the same room if they had the same
encoding. `UrlEncoding.EncodeInjective` shows that they never do.

## Model

| member | source | states |
|---|---|---|
| Utf8.Encode | src/main.rs:363 | the UTF-8 bytes of a text, between one and four per character |
| Utf8.DecodeLossy | src/main.rs:415 | lossy decoding yields no more characters than there are bytes |
| Utf8.DecodeEncode | src/main.rs:363-415 | lossy decoding of the bytes a client sends gives back exactly the text it sent |
| Utf8.DecodeFirstOfEncodeChar | src/main.rs:363-415 | decoding the bytes of one character, whatever follows, gives that character and consumes exactly its bytes |
| Utf8.DecodeStrayByte | src/main.rs:415 | a byte that cannot start a UTF-8 sequence is read as one U+FFFD, and decoding resumes at the next byte |
| Utf8.EncodeInjective | src/main.rs:363 | different texts have different byte forms |
| UrlEncoding.Encode | src/main.rs:68 | an encoded name uses only `%` and unreserved characters, and is at least as long as the name |
| UrlEncoding.UnescapeEscape | src/main.rs:68 | percent-decoding gives back the bytes that were encoded |
| UrlEncoding.EncodeInjective | src/main.rs:68 | two names have the same encoding if and only if they are equal |
| UrlEncoding.EncodePlainName | src/main.rs:68 | a name made only of unreserved ASCII characters (such as `monk-chat`) is its own encoding |
| ChatModel.NewMember | src/main.rs:21-39 | a new member carries the given id and a colour from the ten-colour palette |
| ChatModel.MemberIdOf | src/main.rs:417 | a peer's member id is its 36-character uuid text, never `You` |
| ChatModel.NewRoom | src/main.rs:66-83 | a new room is open, with an empty log and input, the encoded name, the URL `HOST/<encoded name>`, a fresh socket on that URL, the local user as its only member, and the room invariant |
| ChatModel.NewRoomUrlIdentifiesName | src/main.rs:67-72 | two rooms built from names have the same URL if and only if the names are equal |
| ChatModel.CountIdUnique | src/main.rs:421-432 | in a roster with unique ids, an id occurs once if present and zero times otherwise |
| ChatModel.FirstMember | src/main.rs:306-317 | the scan finds the first roster position with the id, and finds nothing exactly when the id is absent |
| ChatModel.MemberLabel | src/main.rs:305-320 | a message is labelled with its author id in the colour of the first matching member, or `Unknown` without a colour when no member matches |
| ChatModel.LabelsAreKnown | src/main.rs:306-320 | in a valid room every message is labelled with its own author id and a colour, never `Unknown` |
| Session.GreetingBytesAreUtf8 | src/main.rs:399 | the greeting's wire bytes are the UTF-8 form of `hello friend!` |
| Session.GreetingsAppend | src/main.rs:395-406 | peer events are answered in order: the sends for two batches are the sends for each batch, concatenated |
| Session.GreetingsTargets | src/main.rs:395-406 | every send caused by peer events is the greeting to a peer that connected, and every connecting peer is greeted |
| Session.HandleRoomPeers | src/main.rs:393-408 | the peer-event loop drains the events, appends exactly the greetings they call for, and leaves roster and log unchanged |
| Session.PeersHandledKeepsValid | src/main.rs:393-408 | answering peer events keeps the room invariant |
| Session.RosterExtends | src/main.rs:430-432 | ingestion only appends to the roster |
| Session.RosterUnique | src/main.rs:421-432 | ingestion keeps member ids unique, and each added member is a sender of the batch with a palette colour |
| Session.RosterHasSenders | src/main.rs:421-432 | after a batch, the sender of every packet is a member, greeting or not |
| Session.SenderOnceInRoster | src/main.rs:421-432 | however many packets a peer sent, its id is in the roster exactly once |
| Session.IsMember | src/main.rs:421-428 | the early-exit roster scan reports true if and only if the id is in the roster |
| Session.LogExtends | src/main.rs:434-442 | ingestion only appends to the log |
| Session.LogAppend | src/main.rs:413-443 | ingesting two batches in turn is ingesting their concatenation, so messages keep packet order |
| Session.LogFromPackets | src/main.rs:411-442 | every appended message comes from one packet: its sender, its decoded text (never the greeting) and the single date of the tick |
| Session.LogHasChat | src/main.rs:434-442 | every packet whose text is not the greeting is logged as a message from its sender with the tick's date |
| Session.AcceptRoomMessages | src/main.rs:410-445 | the ingestion loop drains the packets into exactly the roster and log those functions describe, and nothing else changes |
| Session.AcceptKeepsValid | src/main.rs:410-445 | ingestion keeps the room invariant: unique palette-coloured members, every message attributed, no greeting text from a peer |
| Session.CountToAppend | src/main.rs:367-370 | the count of sends to a peer adds up over concatenation |
| Session.FanoutOncePerPeer | src/main.rs:365-370 | a broadcast to a snapshot of distinct peers sends one copy to each, in order, and none to any other peer |
| Session.FanoutPayload | src/main.rs:367-370 | every copy of a broadcast carries the message bytes |
| Session.SendFromRoom | src/main.rs:348-373 | empty input changes nothing; otherwise the input is sent to every connected peer, logged once as `You`'s message with the date, and cleared |
| Session.SendKeepsValid | src/main.rs:352-373 | sending keeps the room invariant |
| Session.Delivery | src/main.rs:363-442 | a receiver logs exactly the sent text from the sending peer, unless the text is the greeting, and adds the sender to its roster either way |
| Session.GreetingIsHandshake | src/main.rs:399-442 | the greeting a connecting peer receives never reaches that peer's log, but puts the greeter in its roster |
| Registry.IndexOfUrl | src/main.rs:234-237 | the first room at the URL, or none when no room has it |
| Registry.Focused | src/main.rs:273-277 | only the open flags change; the room at the index is open and every other room is closed |
| Registry.JoinOrFocus | src/main.rs:228-249 | an empty name leaves the rooms alone; an already joined URL re-opens that room alone; any other name appends exactly one new room and opens it alone |
| Registry.IndexOfUrlOnlyReadsUrls | src/main.rs:234-237 | the search depends on the room URLs alone |
| Registry.JoinOpensNamedRoom | src/main.rs:234-247 | after a non-empty join, exactly one room is open and it is at the name's URL |
| Registry.JoinIdempotent | src/main.rs:234-247 | joining the same name twice gives the same rooms as joining it once |
| Registry.RejoinSameRoomIffSameName | src/main.rs:228-247 | a second non-empty join leaves the rooms as the first join left them if and only if the names are equal |
| Registry.JoinKeepsValid | src/main.rs:228-247 | joining keeps at most one window open, room URLs unique and every room valid |
| Registry.FocusKeepsValid | src/main.rs:273-277 | focusing keeps the registry invariant |
| Registry.ApplyOpensAtMostOne | src/main.rs:224-277 | a join or focus keeps at most one room open, and exactly one after a non-empty join or a focus on an existing room |
| Registry.RunKeepsAtMostOneOpen | src/main.rs:224-277 | any sequence of joins and focuses keeps at most one room open, and exactly one after a non-empty join or an in-range focus |
| Registry.AppState.constructor | src/main.rs:382-391 | start-up leaves one room, for `monk-chat`, and an empty Room URL box |
| Registry.AppState.EditRoomUrl | src/main.rs:220 | editing the Room URL box changes only its text |
| Registry.AppState.EditInputText | src/main.rs:337-340 | editing the message box of the open room changes only that box |
| Registry.AppState.ShowOnly | src/main.rs:239-241 | the flag loop leaves the rooms as `Focused` describes |
| Registry.AppState.Connect | src/main.rs:224-250 | the Connect button leaves the rooms as `JoinOrFocus` describes, keeps the invariant and clears the box |
| Registry.AppState.FocusRoom | src/main.rs:258-277 | a click on a listed room opens it alone and keeps the invariant |
| Registry.AppState.HandlePeers | src/main.rs:393-408 | every room answers its peer events as `PeersHandled` describes, and the invariant holds |
| Registry.AppState.AcceptMessages | src/main.rs:410-445 | every room ingests its packets with the tick's one date, as `MessagesAccepted` describes, and the invariant holds |
| Registry.AppState.Send | src/main.rs:342-374 | the Send button of the open room changes that room alone, as `MessageSent` describes, and the invariant holds |
| Scenarios.Conversation | src/main.rs:393-445 | a peer connects and is greeted with nothing logged, says `hi` and joins the roster, then the local reply is logged after it and sent to that peer |
| Scenarios.Reconnect | src/main.rs:395-432 | a peer that leaves and returns is greeted again, stays in the roster exactly once, and its new message is logged |
| Scenarios.TypedGreetingIsNotDelivered | src/main.rs:348-442 | greeting text typed by the local user is logged locally, goes out as the greeting bytes, and is dropped by the receiver |

## Left out

- Rendering (egui panels, layout, sizes, scrolling, showing the log newest first) is not modelled. Only the label of a message's author is modelled, because it carries logic.
- Keyboard handling is not modelled: the Return key that also triggers Send, and the focus it requests back. Send is one operation whichever way it is triggered.
- Bevy wiring is not modelled: system scheduling, `close_on_esc` and the camera. The per-tick systems are methods that a caller runs in any order.
- The matchbox socket is not modelled. Its connected peers, buffered events and packets come from an environment step, `Registry.AppState.TransportDelivers`, and sends are recorded rather than delivered. Signalling, WebRTC and channel reliability are outside the client.
- The socket that `Room::new` opens for a name that is then dropped (an empty name, or a name that is already joined) is not modelled. That connection attempt has no effect on the room list.
- ChatModel.NewMember: the random colour is a palette index supplied by the caller, so the uniformity of `choose` is not modelled.
- The clock (`Utc::now`) is a date parameter; the date format is not modelled.
- `info!` logging is not modelled.
- Colours are named constants, not their RGBA values.
- Utf8.DecodeLossy: its contract states only the length bound. What it computes follows the maximal-subpart replacement rule of the Rust standard library. Only two things are proved about it: the round trip on valid UTF-8 (`Utf8.DecodeEncode`) and stray bytes (`Utf8.DecodeStrayByte`). Truncated multi-byte sequences are not proved against an independent reference.
