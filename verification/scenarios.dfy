/** Whole conversations run through the session engine, step by step, for
    any room name, any peer and any colour draws. */
module Scenarios {
  import Utf8
  import opened ChatModel
  import opened Session

  /** A room is created; peer `p` connects and is greeted, with nothing
      logged; `p` says "hi" and joins the roster with its message logged;
      the local user says "yo", which is logged after it and sent to `p`. */
  lemma Conversation(name: string, pick: PaletteIndex, p: PeerId, d1: string, d2: string, choose: nat -> PaletteIndex)
    ensures
      var r0 := NewRoom(name, pick);
      var r1 := PeersHandled(r0.(socket := r0.socket.(connected := [p], events := [PeerEvent(p, Connected)])));
      var r2 := MessagesAccepted(r1.(socket := r1.socket.(inbox := [Packet(p, Utf8.Encode("hi"))])), d1, choose);
      var r3 := MessageSent(r2.(inputText := "yo"), d2);
      && r1.socket.sent == [Outgoing(p, GreetingBytes)] && r1.messages == [] && r1.members == r0.members
      && r2.members == r0.members + [NewMember(MemberIdOf(p), choose(0))]
      && r2.messages == [Message(MemberIdOf(p), "hi", d1)]
      && r3.messages == [Message(MemberIdOf(p), "hi", d1), Message(You, "yo", d2)]
      && r3.socket.sent == [Outgoing(p, GreetingBytes), Outgoing(p, Utf8.Encode("yo"))]
      && r3.inputText == ""
  {
    var r0 := NewRoom(name, pick);
    var r1 := PeersHandled(r0.(socket := r0.socket.(connected := [p], events := [PeerEvent(p, Connected)])));
    assert Greetings([PeerEvent(p, Connected)]) == [Outgoing(p, GreetingBytes)] by {
      assert [PeerEvent(p, Connected)][..0] == [];
    }
    var hi := [Packet(p, Utf8.Encode("hi"))];
    Utf8.DecodeEncode("hi");
    assert hi[..0] == [];
    assert !HasMember(r1.members, MemberIdOf(p)) by {
      assert r1.members[0].id == You;
    }
    assert Roster(r1.members, hi, choose) == r0.members + [NewMember(MemberIdOf(p), choose(0))];
    assert Log(r1.messages, hi, d1) == [Message(MemberIdOf(p), "hi", d1)];
    var r2 := MessagesAccepted(r1.(socket := r1.socket.(inbox := hi)), d1, choose);
    assert r2.socket.connected == [p];
    assert r2.socket.sent == [Outgoing(p, GreetingBytes)];
    assert Fanout([p], Utf8.Encode("yo")) == [Outgoing(p, Utf8.Encode("yo"))] by {
      assert [p][..0] == [];
    }
    var r3 := MessageSent(r2.(inputText := "yo"), d2);
    assert r3.messages == r2.messages + [Message(You, "yo", d2)];
  }

  /** The peer leaves, comes back and says "hi" again: it is greeted again,
      it stays in the roster exactly once, and the log gains a second
      message. */
  lemma Reconnect(room: Room, p: PeerId, date: string, choose: nat -> PaletteIndex)
    requires RoomValid(room) && HasMember(room.members, MemberIdOf(p))
    ensures
      var events := [PeerEvent(p, Disconnected), PeerEvent(p, Connected)];
      var r1 := PeersHandled(room.(socket := room.socket.(events := events)));
      var r2 := MessagesAccepted(r1.(socket := r1.socket.(inbox := [Packet(p, Utf8.Encode("hi"))])), date, choose);
      && r1.socket.sent == room.socket.sent + [Outgoing(p, GreetingBytes)]
      && r2.members == room.members
      && CountId(r2.members, MemberIdOf(p)) == 1
      && r2.messages == room.messages + [Message(MemberIdOf(p), "hi", date)]
  {
    var events := [PeerEvent(p, Disconnected), PeerEvent(p, Connected)];
    assert Greetings(events) == [Outgoing(p, GreetingBytes)] by {
      assert events[..1] == [PeerEvent(p, Disconnected)];
      assert events[..1][..0] == [];
      assert Greetings(events[..1]) == [];
    }
    var hi := [Packet(p, Utf8.Encode("hi"))];
    Utf8.DecodeEncode("hi");
    assert hi[..0] == [];
    assert Roster(room.members, hi, choose) == room.members;
    assert Log(room.messages, hi, date) == room.messages + [Message(MemberIdOf(p), "hi", date)];
    CountIdUnique(room.members, MemberIdOf(p));
  }

  /** Nothing stops the local user from typing the greeting text itself:
      it is logged locally as the user's message and sent as bytes that
      every receiving client takes for a handshake and leaves out of its
      log. */
  lemma TypedGreetingIsNotDelivered(sender: Room, receiver: Room, from: PeerId, d: string, d': string)
    requires sender.inputText == Greeting
    ensures MessageSent(sender, d).messages == sender.messages + [Message(You, Greeting, d)]
    ensures forall o :: o in MessageSent(sender, d).socket.sent[|sender.socket.sent|..] ==> o.payload == GreetingBytes
    ensures Log(receiver.messages, [Packet(from, GreetingBytes)], d') == receiver.messages
  {
    GreetingBytesAreUtf8();
    FanoutPayload(sender.socket.connected, GreetingBytes);
    var r := MessageSent(sender, d);
    assert r.socket.sent[|sender.socket.sent|..] == Fanout(sender.socket.connected, GreetingBytes);
    Utf8.DecodeEncode(Greeting);
  }
}
