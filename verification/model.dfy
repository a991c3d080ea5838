/** The values a monk-chat room is made of: members with their display
    colours, messages, the room itself with its transport, and the two pure
    helpers the rest of the program relies on, `Room::new` and the label a
    message is shown under. */
module ChatModel {
  import Utf8
  import UrlEncoding

  /** The rendezvous server every room URL starts with. */
  const Host: string := "ws://127.0.0.1:3536"

  /** The id of the local user's member, pre-seeded in every room. */
  const You: string := "You"

  /** The greeting sent to a peer when it connects; a packet with exactly
      this text is a handshake, not a chat message. */
  const Greeting: string := "hello friend!"

  /** Shown for a message whose author is not in the roster. */
  const UnknownLabel: string := "Unknown"

  datatype Option<T> = None | Some(value: T)

  /** The named `Color32` constants this client uses: the ten of the member
      palette and the two it writes message text and dates in. */
  datatype Color =
    | DarkGreen | DarkRed | Red | Yellow | Green | Blue | Gold | LightRed | LightGreen | DarkBlue
    | White | LightBlue

  /** The palette a new member's colour is drawn from. */
  const Palette: seq<Color> :=
    [DarkGreen, DarkRed, Red, Yellow, Green, Blue, Gold, LightRed, LightGreen, DarkBlue]

  /** The outcome of the random draw over the palette. */
  type PaletteIndex = i: nat | i < 10

  /** The text of a transport peer id (`peer.0.to_string()`): a uuid in its
      36-character hyphenated form. */
  type PeerId = s: string | |s| == 36 witness "00000000-0000-0000-0000-000000000000"

  datatype Member = Member(id: string, color: Color)

  datatype Message = Message(memberId: string, content: string, date: string)

  datatype PeerState = Connected | Disconnected

  /** A connect or disconnect notification reported by the transport. */
  datatype PeerEvent = PeerEvent(peer: PeerId, state: PeerState)

  /** A packet received from a peer. */
  datatype Packet = Packet(peer: PeerId, payload: seq<Utf8.Byte>)

  /** A packet handed to the transport for one peer. */
  datatype Outgoing = Outgoing(peer: PeerId, payload: seq<Utf8.Byte>)

  /** What the core sees of a room's socket: the rendezvous URL it was
      opened on, the peers it currently reports connected, the peer events
      and packets buffered since the last tick, and every send made on it. */
  datatype Transport = Transport(
    url: string,
    connected: seq<PeerId>,
    events: seq<PeerEvent>,
    inbox: seq<Packet>,
    sent: seq<Outgoing>)

  datatype Room = Room(
    isWindowOpen: bool,
    roomUrl: string,
    messages: seq<Message>,
    inputText: string,
    socket: Transport,
    name: string,
    members: seq<Member>)

  /** `Member::new`: the id with a colour drawn from the palette. */
  function NewMember(id: string, pick: PaletteIndex): (m: Member)
    ensures m.id == id && m.color in Palette
  {
    Member(id, Palette[pick])
  }

  /** The member id a packet from `p` is attributed to. Peer ids are uuids,
      so no peer is ever taken for the local user. */
  function MemberIdOf(p: PeerId): (id: string)
    ensures |id| == 36 && id != You
  {
    p
  }

  /** The address a room name is reached at. */
  function RoomUrl(name: string): string {
    Host + "/" + UrlEncoding.Encode(name)
  }

  /** `Room::new`: an open room on a freshly opened socket, with an empty
      log and the local user as its only member. */
  function NewRoom(name: string, pick: PaletteIndex): (r: Room)
    ensures r.isWindowOpen && r.messages == [] && r.inputText == ""
    ensures |r.members| == 1 && r.members[0].id == You
    ensures r.name == UrlEncoding.Encode(name) && r.roomUrl == RoomUrl(name)
    ensures r.socket.url == r.roomUrl
    ensures r.socket.connected == [] && r.socket.events == [] && r.socket.inbox == [] && r.socket.sent == []
    ensures RoomValid(r)
  {
    var encoded := UrlEncoding.Encode(name);
    var url := Host + "/" + encoded;
    Room(
      isWindowOpen := true,
      roomUrl := url,
      messages := [],
      inputText := "",
      socket := Transport(url, [], [], [], []),
      name := encoded,
      members := [NewMember(You, pick)])
  }

  /** Two rooms built from names get the same URL exactly when the names
      are the same. */
  lemma NewRoomUrlIdentifiesName(a: string, b: string, pickA: PaletteIndex, pickB: PaletteIndex)
    ensures NewRoom(a, pickA).roomUrl == NewRoom(b, pickB).roomUrl <==> a == b
  {
    var ea, eb := UrlEncoding.Encode(a), UrlEncoding.Encode(b);
    if Host + "/" + ea == Host + "/" + eb {
      assert ea == (Host + "/" + ea)[|Host| + 1..];
      assert eb == (Host + "/" + eb)[|Host| + 1..];
      UrlEncoding.EncodeInjective(a, b);
    }
  }

  predicate HasMember(members: seq<Member>, id: string) {
    exists k :: 0 <= k < |members| && members[k].id == id
  }

  predicate UniqueIds(members: seq<Member>) {
    forall i, j :: 0 <= i < j < |members| ==> members[i].id != members[j].id
  }

  /** The number of roster entries carrying `id`. */
  function CountId(members: seq<Member>, id: string): (n: nat)
    ensures n <= |members|
  {
    if members == [] then 0
    else CountId(members[..|members| - 1], id) + (if members[|members| - 1].id == id then 1 else 0)
  }

  /** In a roster without duplicates a present id occurs exactly once and
      an absent one not at all. */
  lemma {:induction false} CountIdUnique(members: seq<Member>, id: string)
    requires UniqueIds(members)
    ensures CountId(members, id) == if HasMember(members, id) then 1 else 0
  {
    if members != [] {
      var init := members[..|members| - 1];
      assert UniqueIds(init);
      CountIdUnique(init, id);
      if HasMember(init, id) {
        var k :| 0 <= k < |init| && init[k].id == id;
        assert members[k].id == id;
      }
    }
  }

  /** The position of the first member carrying `id`: the linear scan the
      message view does for each message. */
  function FirstMember(members: seq<Member>, id: string): (r: Option<nat>)
    ensures r.Some? ==> r.value < |members| && members[r.value].id == id
                        && forall j :: 0 <= j < r.value ==> members[j].id != id
    ensures r.None? <==> !HasMember(members, id)
  {
    if members == [] then None
    else if members[0].id == id then Some(0)
    else match FirstMember(members[1..], id)
      case None =>
        assert forall k :: 1 <= k < |members| ==> members[k].id == members[1..][k - 1].id;
        None
      case Some(k) => Some(k + 1)
  }

  /** How a message's author is displayed: the id and colour of the first
      roster entry with the message's member id, or the placeholder text in
      no colour. */
  datatype Label = Label(text: string, color: Option<Color>)

  function MemberLabel(members: seq<Member>, message: Message): (l: Label)
    ensures HasMember(members, message.memberId) ==>
              l.text == message.memberId && l.color.Some?
              && exists k :: 0 <= k < |members| && members[k] == Member(l.text, l.color.value)
                             && forall j :: 0 <= j < k ==> members[j].id != message.memberId
    ensures !HasMember(members, message.memberId) ==> l == Label(UnknownLabel, None)
  {
    match FirstMember(members, message.memberId)
    case Some(k) => Label(members[k].id, Some(members[k].color))
    case None => Label(UnknownLabel, None)
  }

  predicate Distinct(peers: seq<PeerId>) {
    forall i, j :: 0 <= i < j < |peers| ==> peers[i] != peers[j]
  }

  /** Every message in the log has an author in the roster. */
  predicate Attributed(members: seq<Member>, messages: seq<Message>) {
    forall k :: 0 <= k < |messages| ==> HasMember(members, messages[k].memberId)
  }

  /** No message from a peer carries the greeting text. */
  predicate NoPeerGreeting(messages: seq<Message>) {
    forall k :: 0 <= k < |messages| && messages[k].content == Greeting ==> messages[k].memberId == You
  }

  /** What every room keeps true: the local user is the first member, ids
      are unique and coloured from the palette, every message has an
      author in the roster, a greeting text is only ever the local user's,
      the socket belongs to the room's URL and reports each peer once. */
  predicate RoomValid(r: Room) {
    && |r.members| >= 1 && r.members[0].id == You
    && UniqueIds(r.members)
    && (forall k :: 0 <= k < |r.members| ==> r.members[k].color in Palette)
    && Attributed(r.members, r.messages)
    && NoPeerGreeting(r.messages)
    && r.roomUrl == Host + "/" + r.name
    && r.socket.url == r.roomUrl
    && Distinct(r.socket.connected)
  }

  /** In a valid room no message is ever shown as "Unknown": each is
      labelled with its own author id. */
  lemma LabelsAreKnown(r: Room, k: nat)
    requires RoomValid(r) && k < |r.messages|
    ensures MemberLabel(r.members, r.messages[k]).text == r.messages[k].memberId
    ensures MemberLabel(r.members, r.messages[k]).color.Some?
  {
    assert HasMember(r.members, r.messages[k].memberId);
  }
}
