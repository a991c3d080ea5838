/** The per-room engine of monk-chat: what one tick does to one room when
    its transport reports peer events (`handle_peers`) and packets
    (`accept_messages`), and what the Send button does (`ui_system`'s send
    block). Each is a method with the source's loop, proved against a
    function that says what the whole batch does. */
module Session {
  import Utf8
  import opened ChatModel

  /** The bytes of the greeting as it goes over the wire. */
  const GreetingBytes: seq<Utf8.Byte> := [104, 101, 108, 108, 111, 32, 102, 114, 105, 101, 110, 100, 33]

  /** They are the UTF-8 form of the greeting text. */
  lemma GreetingBytesAreUtf8()
    ensures GreetingBytes == Utf8.Encode(Greeting)
  {
    Utf8.EncodeAscii(Greeting);
  }

  // ---------------------------------------------------------------------
  // Peer lifecycle

  /** The sends a batch of peer events causes: the greeting to the peer of
      each connect event, in event order; nothing for a disconnect. */
  function Greetings(events: seq<PeerEvent>): seq<Outgoing>
    decreases |events|
  {
    if events == [] then []
    else
      var last := events[|events| - 1];
      Greetings(events[..|events| - 1])
        + (if last.state == Connected then [Outgoing(last.peer, GreetingBytes)] else [])
  }

  /** Events are answered one after the other: the sends for two batches
      are the sends for the first followed by those for the second. */
  lemma {:induction false} GreetingsAppend(a: seq<PeerEvent>, b: seq<PeerEvent>)
    ensures Greetings(a + b) == Greetings(a) + Greetings(b)
    decreases |b|
  {
    if b == [] {
      assert a + b == a;
    } else {
      var b' := b[..|b| - 1];
      var last := b[|b| - 1];
      var reply := if last.state == Connected then [Outgoing(last.peer, GreetingBytes)] else [];
      assert (a + b)[..|a + b| - 1] == a + b';
      assert (a + b)[|a + b| - 1] == last;
      assert Greetings(a + b) == Greetings(a + b') + reply;
      assert Greetings(b) == Greetings(b') + reply;
      GreetingsAppend(a, b');
    }
  }

  /** Every send caused by peer events is the greeting to a peer that
      connected, and every peer that connected is greeted. */
  lemma {:induction false} GreetingsTargets(events: seq<PeerEvent>)
    ensures forall o :: o in Greetings(events) ==>
              o.payload == GreetingBytes && PeerEvent(o.peer, Connected) in events
    ensures forall e :: e in events && e.state == Connected ==>
              Outgoing(e.peer, GreetingBytes) in Greetings(events)
    decreases |events|
  {
    if events != [] {
      var init := events[..|events| - 1];
      var last := events[|events| - 1];
      GreetingsTargets(init);
      assert events == init + [last];
    }
  }

  /** A room after `handle_peers`: its peer events drained, the greetings
      they call for added to its send log, nothing else touched. */
  function PeersHandled(room: Room): Room {
    room.(socket := room.socket.(events := [], sent := room.socket.sent + Greetings(room.socket.events)))
  }

  /** `handle_peers` for one room: drain the socket's peer events and
      answer each connect with the greeting to that peer only. Roster and
      log are left alone. */
  method HandleRoomPeers(room: Room) returns (r: Room)
    ensures r == PeersHandled(room)
    ensures r.members == room.members && r.messages == room.messages
  {
    var events := room.socket.events;
    var sent := room.socket.sent;
    for i := 0 to |events|
      invariant sent == room.socket.sent + Greetings(events[..i])
    {
      var event := events[i];
      assert events[..i + 1][..i] == events[..i];
      assert Greetings(events[..i + 1])
          == Greetings(events[..i]) + (if event.state == Connected then [Outgoing(event.peer, GreetingBytes)] else []);
      if event.state == Connected {
        sent := sent + [Outgoing(event.peer, GreetingBytes)];
      }
    }
    assert events[..|events|] == events;
    r := room.(socket := room.socket.(events := [], sent := sent));
  }

  // ---------------------------------------------------------------------
  // Packet ingestion

  /** The roster after a batch of packets: the sender of each packet that
      is not yet a member is appended, with the colour drawn for that
      packet's position in the batch. Greetings count too. */
  function Roster(members: seq<Member>, packets: seq<Packet>, choose: nat -> PaletteIndex): seq<Member>
    decreases |packets|
  {
    if packets == [] then members
    else
      var n := |packets| - 1;
      var before := Roster(members, packets[..n], choose);
      var id := MemberIdOf(packets[n].peer);
      if HasMember(before, id) then before else before + [NewMember(id, choose(n))]
  }

  /** The log after a batch of packets: every packet whose text is not the
      greeting becomes a message from its sender, stamped with the one date
      taken for the whole batch. */
  function Log(messages: seq<Message>, packets: seq<Packet>, date: string): seq<Message>
    decreases |packets|
  {
    if packets == [] then messages
    else
      var n := |packets| - 1;
      var before := Log(messages, packets[..n], date);
      var content := Utf8.DecodeLossy(packets[n].payload);
      if content == Greeting then before else before + [Message(MemberIdOf(packets[n].peer), content, date)]
  }

  /** Ingestion only ever appends to the roster: existing members keep
      their place and order. */
  lemma {:induction false} RosterExtends(members: seq<Member>, packets: seq<Packet>, choose: nat -> PaletteIndex)
    ensures members <= Roster(members, packets, choose)
    decreases |packets|
  {
    if packets != [] {
      RosterExtends(members, packets[..|packets| - 1], choose);
    }
  }

  /** Ingestion keeps member ids unique, and every member it adds is the
      sender of a packet of the batch, coloured from the palette. */
  lemma {:induction false} RosterUnique(members: seq<Member>, packets: seq<Packet>, choose: nat -> PaletteIndex)
    requires UniqueIds(members)
    ensures UniqueIds(Roster(members, packets, choose))
    ensures forall j :: |members| <= j < |Roster(members, packets, choose)| ==>
              Roster(members, packets, choose)[j].color in Palette
              && exists k :: 0 <= k < |packets| && Roster(members, packets, choose)[j].id == MemberIdOf(packets[k].peer)
    decreases |packets|
  {
    if packets != [] {
      var n := |packets| - 1;
      var init := packets[..n];
      RosterUnique(members, init, choose);
      RosterExtends(members, init, choose);
      var before := Roster(members, init, choose);
      var after := Roster(members, packets, choose);
      forall j | |members| <= j < |after|
        ensures after[j].color in Palette
        ensures exists k :: 0 <= k < |packets| && after[j].id == MemberIdOf(packets[k].peer)
      {
        if j < |before| {
          var k :| 0 <= k < |init| && before[j].id == MemberIdOf(init[k].peer);
          assert after[j] == before[j] && packets[k] == init[k];
        } else {
          assert after[j].id == MemberIdOf(packets[n].peer);
        }
      }
    }
  }

  /** After a batch, the sender of every packet in it is a member, whether
      it sent chat text or only the greeting. */
  lemma {:induction false} RosterHasSenders(members: seq<Member>, packets: seq<Packet>, choose: nat -> PaletteIndex)
    ensures forall k :: 0 <= k < |packets| ==> HasMember(Roster(members, packets, choose), MemberIdOf(packets[k].peer))
    decreases |packets|
  {
    if packets != [] {
      var n := |packets| - 1;
      var init := packets[..n];
      RosterHasSenders(members, init, choose);
      RosterExtends(members, init, choose);
      var before := Roster(members, init, choose);
      var after := Roster(members, packets, choose);
      forall k | 0 <= k < |packets|
        ensures HasMember(after, MemberIdOf(packets[k].peer))
      {
        if k < n {
          assert packets[k] == init[k];
          var i :| 0 <= i < |before| && before[i].id == MemberIdOf(init[k].peer);
          assert after[i] == before[i];
        } else if !HasMember(before, MemberIdOf(packets[n].peer)) {
          assert after[|before|].id == MemberIdOf(packets[n].peer);
        }
      }
    }
  }

  /** However many packets a peer sends, its id is in the roster exactly
      once afterwards. */
  lemma SenderOnceInRoster(members: seq<Member>, packets: seq<Packet>, choose: nat -> PaletteIndex, k: nat)
    requires UniqueIds(members) && k < |packets|
    ensures CountId(Roster(members, packets, choose), MemberIdOf(packets[k].peer)) == 1
  {
    RosterUnique(members, packets, choose);
    RosterHasSenders(members, packets, choose);
    CountIdUnique(Roster(members, packets, choose), MemberIdOf(packets[k].peer));
  }

  /** Ingestion only appends to the log. */
  lemma {:induction false} LogExtends(messages: seq<Message>, packets: seq<Packet>, date: string)
    ensures Log(messages, packets, date) == messages + Log([], packets, date)
    decreases |packets|
  {
    if packets != [] {
      LogExtends(messages, packets[..|packets| - 1], date);
    }
  }

  /** Packets are taken in batch order: ingesting two batches one after
      the other (with one date) is ingesting their concatenation. */
  lemma {:induction false} LogAppend(messages: seq<Message>, a: seq<Packet>, b: seq<Packet>, date: string)
    ensures Log(messages, a + b, date) == Log(Log(messages, a, date), b, date)
    decreases |b|
  {
    if b == [] {
      assert a + b == a;
    } else {
      var b' := b[..|b| - 1];
      assert (a + b)[..|a + b| - 1] == a + b';
      assert (a + b)[|a + b| - 1] == b[|b| - 1];
      LogAppend(messages, a, b', date);
    }
  }

  /** Every message ingestion appends comes from a packet of the batch:
      its sender, its decoded text (never the greeting) and the batch date. */
  lemma {:induction false} LogFromPackets(messages: seq<Message>, packets: seq<Packet>, date: string)
    ensures messages <= Log(messages, packets, date)
    ensures forall j :: |messages| <= j < |Log(messages, packets, date)| ==>
              var m := Log(messages, packets, date)[j];
              && m.date == date && m.content != Greeting
              && exists k :: 0 <= k < |packets| && m.memberId == MemberIdOf(packets[k].peer)
                                               && m.content == Utf8.DecodeLossy(packets[k].payload)
    decreases |packets|
  {
    if packets != [] {
      var n := |packets| - 1;
      var init := packets[..n];
      LogFromPackets(messages, init, date);
      var before := Log(messages, init, date);
      var after := Log(messages, packets, date);
      forall j | |messages| <= j < |after|
        ensures after[j].date == date && after[j].content != Greeting
        ensures exists k :: 0 <= k < |packets| && after[j].memberId == MemberIdOf(packets[k].peer)
                                               && after[j].content == Utf8.DecodeLossy(packets[k].payload)
      {
        if j < |before| {
          var k :| 0 <= k < |init| && before[j].memberId == MemberIdOf(init[k].peer)
                                   && before[j].content == Utf8.DecodeLossy(init[k].payload);
          assert after[j] == before[j] && packets[k] == init[k];
        } else {
          assert after[j].memberId == MemberIdOf(packets[n].peer);
        }
      }
    }
  }

  /** Conversely, every packet whose text is not the greeting is in the
      log afterwards, as a message from its sender with the batch date. */
  lemma {:induction false} LogHasChat(messages: seq<Message>, packets: seq<Packet>, date: string)
    ensures forall k :: 0 <= k < |packets| && Utf8.DecodeLossy(packets[k].payload) != Greeting ==>
              Message(MemberIdOf(packets[k].peer), Utf8.DecodeLossy(packets[k].payload), date)
                in Log(messages, packets, date)
    decreases |packets|
  {
    if packets != [] {
      var n := |packets| - 1;
      var init := packets[..n];
      LogHasChat(messages, init, date);
      var before := Log(messages, init, date);
      forall k | 0 <= k < |packets| && Utf8.DecodeLossy(packets[k].payload) != Greeting
        ensures Message(MemberIdOf(packets[k].peer), Utf8.DecodeLossy(packets[k].payload), date)
                  in Log(messages, packets, date)
      {
        if k < n {
          assert packets[k] == init[k];
        }
      }
    }
  }

  /** The membership check `accept_messages` runs before each packet: a
      scan of the roster that stops at the first matching id. */
  method IsMember(members: seq<Member>, id: string) returns (found: bool)
    ensures found <==> HasMember(members, id)
  {
    found := false;
    for i := 0 to |members|
      invariant !found ==> forall j :: 0 <= j < i ==> members[j].id != id
      invariant found ==> HasMember(members, id)
    {
      if members[i].id == id {
        found := true;
        break;
      }
    }
  }

  /** A room after `accept_messages`: its packets drained into the roster
      and the log, nothing else touched. */
  function MessagesAccepted(room: Room, date: string, choose: nat -> PaletteIndex): Room {
    room.(
      members := Roster(room.members, room.socket.inbox, choose),
      messages := Log(room.messages, room.socket.inbox, date),
      socket := room.socket.(inbox := []))
  }

  /** `accept_messages` for one room: drain the socket's packets; for each,
      add an unseen sender to the roster (checked against the roster as it
      is at that packet), then keep its text as a message unless it is the
      greeting. `date` is the one timestamp of the tick and `choose` stands
      for the random colour drawn for the packet at each batch position. */
  method AcceptRoomMessages(room: Room, date: string, choose: nat -> PaletteIndex) returns (r: Room)
    ensures r == MessagesAccepted(room, date, choose)
  {
    var packets := room.socket.inbox;
    r := room.(socket := room.socket.(inbox := []));
    for i := 0 to |packets|
      invariant r == room.(
        members := Roster(room.members, packets[..i], choose),
        messages := Log(room.messages, packets[..i], date),
        socket := room.socket.(inbox := []))
    {
      var packet := packets[i];
      assert packets[..i + 1][..i] == packets[..i];
      var content := Utf8.DecodeLossy(packet.payload);
      var memberId := MemberIdOf(packet.peer);
      var existing := IsMember(r.members, memberId);
      if !existing {
        r := r.(members := r.members + [NewMember(memberId, choose(i))]);
      }
      if content != Greeting {
        r := r.(messages := r.messages + [Message(memberId, content, date)]);
      }
    }
    assert packets[..|packets|] == packets;
  }

  // ---------------------------------------------------------------------
  // Broadcast

  /** One copy of the payload for each peer of the snapshot, in order. */
  function Fanout(peers: seq<PeerId>, payload: seq<Utf8.Byte>): seq<Outgoing>
    decreases |peers|
  {
    if peers == [] then []
    else Fanout(peers[..|peers| - 1], payload) + [Outgoing(peers[|peers| - 1], payload)]
  }

  /** The number of sends addressed to `p`. */
  function CountTo(sends: seq<Outgoing>, p: PeerId): nat {
    if sends == [] then 0
    else CountTo(sends[..|sends| - 1], p) + (if sends[|sends| - 1].peer == p then 1 else 0)
  }

  lemma {:induction false} CountToAppend(a: seq<Outgoing>, b: seq<Outgoing>, p: PeerId)
    ensures CountTo(a + b, p) == CountTo(a, p) + CountTo(b, p)
    decreases |b|
  {
    if b == [] {
      assert a + b == a;
    } else {
      var b' := b[..|b| - 1];
      assert (a + b)[..|a + b| - 1] == a + b';
      assert (a + b)[|a + b| - 1] == b[|b| - 1];
      CountToAppend(a, b', p);
    }
  }

  /** A broadcast reaches each connected peer exactly once, no other peer,
      and every copy carries the same payload. */
  lemma {:induction false} FanoutOncePerPeer(peers: seq<PeerId>, payload: seq<Utf8.Byte>)
    requires Distinct(peers)
    ensures |Fanout(peers, payload)| == |peers|
    ensures forall k :: 0 <= k < |peers| ==> Fanout(peers, payload)[k] == Outgoing(peers[k], payload)
    ensures forall p: PeerId :: CountTo(Fanout(peers, payload), p) == if p in peers then 1 else 0
    decreases |peers|
  {
    if peers != [] {
      var init := peers[..|peers| - 1];
      var last := peers[|peers| - 1];
      FanoutOncePerPeer(init, payload);
      forall p: PeerId
        ensures CountTo(Fanout(peers, payload), p) == if p in peers then 1 else 0
      {
        assert CountTo(Fanout(peers, payload), p)
            == CountTo(Fanout(init, payload), p) + (if last == p then 1 else 0);
        assert p in peers <==> p in init || p == last;
        assert last !in init;
      }
    }
  }

  /** Every copy of a broadcast carries its payload. */
  lemma {:induction false} FanoutPayload(peers: seq<PeerId>, payload: seq<Utf8.Byte>)
    ensures forall o :: o in Fanout(peers, payload) ==> o.payload == payload
    decreases |peers|
  {
    if peers != [] {
      FanoutPayload(peers[..|peers| - 1], payload);
    }
  }

  /** A room after its Send button: unchanged for empty input; otherwise
      the input broadcast as bytes to the connected peers, logged as the
      local user's message, and cleared. */
  function MessageSent(room: Room, date: string): Room {
    if room.inputText == "" then room
    else room.(
      messages := room.messages + [Message(You, room.inputText, date)],
      inputText := "",
      socket := room.socket.(sent := room.socket.sent + Fanout(room.socket.connected, Utf8.Encode(room.inputText))))
  }

  /** The Send button of a room: empty input does nothing; otherwise the
      input is sent as bytes to every peer in one snapshot of the connected
      peers, appended to the log as the local user's message with the
      current date, and the input box is cleared. */
  method SendFromRoom(room: Room, date: string) returns (r: Room)
    ensures r == MessageSent(room, date)
  {
    r := room;
    if room.inputText == "" {
      return;
    }
    var message := Message(You, room.inputText, date);
    var packet := Utf8.Encode(message.content);
    var connectedPeers := room.socket.connected;
    for i := 0 to |connectedPeers|
      invariant r == room.(socket := room.socket.(sent := room.socket.sent + Fanout(connectedPeers[..i], packet)))
    {
      assert connectedPeers[..i + 1][..i] == connectedPeers[..i];
      r := r.(socket := r.socket.(sent := r.socket.sent + [Outgoing(connectedPeers[i], packet)]));
    }
    assert connectedPeers[..|connectedPeers|] == connectedPeers;
    r := r.(messages := r.messages + [message], inputText := "");
  }

  // ---------------------------------------------------------------------
  // The room invariant across the three operations

  /** Answering peer events keeps the room invariant. */
  lemma PeersHandledKeepsValid(room: Room)
    requires RoomValid(room)
    ensures RoomValid(PeersHandled(room))
  {
  }

  /** Ingestion keeps the room invariant: ids stay unique, new messages are
      attributed to members added no later than they are, and no message
      from a peer carries the greeting. */
  lemma AcceptKeepsValid(room: Room, date: string, choose: nat -> PaletteIndex)
    requires RoomValid(room)
    ensures RoomValid(MessagesAccepted(room, date, choose))
  {
    var packets := room.socket.inbox;
    var members := Roster(room.members, packets, choose);
    var messages := Log(room.messages, packets, date);
    RosterExtends(room.members, packets, choose);
    RosterUnique(room.members, packets, choose);
    RosterHasSenders(room.members, packets, choose);
    LogFromPackets(room.messages, packets, date);
    assert members[0] == room.members[0];
    forall k | 0 <= k < |members|
      ensures members[k].color in Palette
    {
      if k < |room.members| {
        assert members[k] == room.members[k];
      }
    }
    forall k | 0 <= k < |messages|
      ensures HasMember(members, messages[k].memberId)
      ensures messages[k].content == Greeting ==> messages[k].memberId == You
    {
      if k < |room.messages| {
        assert messages[k] == room.messages[k];
        var i :| 0 <= i < |room.members| && room.members[i].id == messages[k].memberId;
        assert members[i] == room.members[i];
      }
    }
  }

  /** Sending keeps the room invariant: the new message is the local
      user's, who is always a member. */
  lemma SendKeepsValid(room: Room, date: string)
    requires RoomValid(room)
    ensures RoomValid(MessageSent(room, date))
  {
    assert room.members[0].id == You;
  }

  // ---------------------------------------------------------------------
  // Two clients talking

  /** What a receiving room makes of bytes another client sent: its text
      exactly, as a message from the sending peer, unless that text is the
      greeting; the sender joins the roster either way. */
  lemma Delivery(receiver: Room, from: PeerId, text: string, date: string, choose: nat -> PaletteIndex)
    ensures Log(receiver.messages, [Packet(from, Utf8.Encode(text))], date)
            == if text == Greeting then receiver.messages
               else receiver.messages + [Message(MemberIdOf(from), text, date)]
    ensures HasMember(Roster(receiver.members, [Packet(from, Utf8.Encode(text))], choose), MemberIdOf(from))
  {
    Utf8.DecodeEncode(text);
    RosterHasSenders(receiver.members, [Packet(from, Utf8.Encode(text))], choose);
  }

  /** The greeting a connecting peer receives is recognised as such: it
      never reaches that peer's log, but puts the greeter in its roster. */
  lemma GreetingIsHandshake(receiver: Room, from: PeerId, date: string, choose: nat -> PaletteIndex)
    ensures Log(receiver.messages, [Packet(from, GreetingBytes)], date) == receiver.messages
    ensures HasMember(Roster(receiver.members, [Packet(from, GreetingBytes)], choose), MemberIdOf(from))
  {
    GreetingBytesAreUtf8();
    Delivery(receiver, from, Greeting, date, choose);
  }
}
