/** The list of joined rooms (`AppState`): joining or re-focusing a room by
    name, focusing a room picked from the list, and the per-tick systems
    that run the session engine over every room. */
module Registry {
  import opened ChatModel
  import Session

  /** The room the client joins at start-up. */
  const StartRoom: string := "monk-chat"

  /** At most one room window is open. */
  predicate AtMostOneOpen(rooms: seq<Room>) {
    forall i, j :: 0 <= i < j < |rooms| && rooms[i].isWindowOpen ==> !rooms[j].isWindowOpen
  }

  /** The room at `k` is open and every other room is closed. */
  predicate OnlyOpen(rooms: seq<Room>, k: nat) {
    forall j :: 0 <= j < |rooms| ==> (rooms[j].isWindowOpen <==> j == k)
  }

  /** No two rooms share a URL. */
  predicate UniqueUrls(rooms: seq<Room>) {
    forall i, j :: 0 <= i < j < |rooms| ==> rooms[i].roomUrl != rooms[j].roomUrl
  }

  /** `after` holds the rooms of `before`, in place, with at most their
      open flags changed. */
  predicate SameButOpen(before: seq<Room>, after: seq<Room>) {
    |before| == |after|
    && forall j :: 0 <= j < |after| ==> after[j] == before[j].(isWindowOpen := after[j].isWindowOpen)
  }

  predicate RegistryValid(rooms: seq<Room>) {
    AtMostOneOpen(rooms) && UniqueUrls(rooms) && forall k :: 0 <= k < |rooms| ==> RoomValid(rooms[k])
  }

  /** `Iterator::position` over the room URLs: the first room at `url`. */
  function IndexOfUrl(rooms: seq<Room>, url: string): (r: Option<nat>)
    ensures r.Some? ==> r.value < |rooms| && rooms[r.value].roomUrl == url
                        && forall j :: 0 <= j < r.value ==> rooms[j].roomUrl != url
    ensures r.None? ==> forall j :: 0 <= j < |rooms| ==> rooms[j].roomUrl != url
  {
    if rooms == [] then None
    else if rooms[0].roomUrl == url then Some(0)
    else match IndexOfUrl(rooms[1..], url)
      case None => None
      case Some(k) => Some(k + 1)
  }

  /** Every room's window flag set to whether it is the one at `index`; an
      index past the end closes them all. */
  function Focused(rooms: seq<Room>, index: nat): (r: seq<Room>)
    ensures SameButOpen(rooms, r)
    ensures forall j :: 0 <= j < |r| ==> (r[j].isWindowOpen <==> j == index)
  {
    seq(|rooms|, j requires 0 <= j < |rooms| => rooms[j].(isWindowOpen := j == index))
  }

  /** The Connect button: an empty name does nothing; a name whose URL is
      already joined opens that room alone; any other name appends a new
      room and opens it alone. */
  function JoinOrFocus(rooms: seq<Room>, input: string, pick: PaletteIndex): (r: seq<Room>)
    ensures input == "" ==> r == rooms
    ensures input != "" && IndexOfUrl(rooms, RoomUrl(input)).Some? ==>
              SameButOpen(rooms, r) && OnlyOpen(r, IndexOfUrl(rooms, RoomUrl(input)).value)
    ensures input != "" && IndexOfUrl(rooms, RoomUrl(input)).None? ==>
              && |r| == |rooms| + 1
              && SameButOpen(rooms, r[..|rooms|])
              && r[|rooms|] == NewRoom(input, pick)
              && OnlyOpen(r, |rooms|)
  {
    if input == "" then rooms
    else
      var inputRoom := NewRoom(input, pick);
      match IndexOfUrl(rooms, inputRoom.roomUrl)
      case Some(index) => Focused(rooms, index)
      case None => Focused(rooms + [inputRoom], |rooms|)
  }

  /** Rooms with the same URLs, in the same order, are searched alike. */
  lemma {:induction false} IndexOfUrlOnlyReadsUrls(a: seq<Room>, b: seq<Room>, url: string)
    requires |a| == |b| && forall j :: 0 <= j < |a| ==> a[j].roomUrl == b[j].roomUrl
    ensures IndexOfUrl(a, url) == IndexOfUrl(b, url)
  {
    if a != [] && a[0].roomUrl != url {
      IndexOfUrlOnlyReadsUrls(a[1..], b[1..], url);
    }
  }

  /** After a non-empty join, the open room is the one at the name's URL. */
  lemma JoinOpensNamedRoom(rooms: seq<Room>, name: string, pick: PaletteIndex)
    requires name != ""
    ensures exists k :: 0 <= k < |JoinOrFocus(rooms, name, pick)|
                        && OnlyOpen(JoinOrFocus(rooms, name, pick), k)
                        && JoinOrFocus(rooms, name, pick)[k].roomUrl == RoomUrl(name)
  {
    var r := JoinOrFocus(rooms, name, pick);
    match IndexOfUrl(rooms, RoomUrl(name))
    case Some(k) =>
      assert r[k].roomUrl == rooms[k].roomUrl;
    case None =>
      assert r[|rooms|] == NewRoom(name, pick);
  }

  /** Joining the same name twice is joining it once: the second join only
      re-focuses the room the first one opened. */
  lemma JoinIdempotent(rooms: seq<Room>, name: string, pick: PaletteIndex, pick': PaletteIndex)
    ensures JoinOrFocus(JoinOrFocus(rooms, name, pick), name, pick') == JoinOrFocus(rooms, name, pick)
  {
    if name != "" {
      var url := RoomUrl(name);
      var once := JoinOrFocus(rooms, name, pick);
      match IndexOfUrl(rooms, url)
      case Some(k) =>
        IndexOfUrlOnlyReadsUrls(rooms, once, url);
        assert Focused(once, k) == once;
      case None =>
        var grown := rooms + [NewRoom(name, pick)];
        IndexOfUrlOnlyReadsUrls(grown, once, url);
        assert IndexOfUrl(grown, url) == Some(|rooms|) by {
          assert forall j :: 0 <= j < |rooms| ==> grown[j].roomUrl != url;
        }
        assert Focused(once, |rooms|) == once;
    }
  }

  /** Joining a second name right after a first leaves the room list as
      the first join left it exactly when the two names are the same: a
      different name never lands on the same room. */
  lemma RejoinSameRoomIffSameName(rooms: seq<Room>, a: string, b: string, pickA: PaletteIndex, pickB: PaletteIndex)
    requires a != "" && b != ""
    ensures JoinOrFocus(JoinOrFocus(rooms, a, pickA), b, pickB) == JoinOrFocus(rooms, a, pickA) <==> a == b
  {
    var first := JoinOrFocus(rooms, a, pickA);
    var second := JoinOrFocus(first, b, pickB);
    if a == b {
      JoinIdempotent(rooms, a, pickA, pickB);
    } else {
      NewRoomUrlIdentifiesName(a, b, pickA, pickB);
      JoinOpensNamedRoom(rooms, a, pickA);
      JoinOpensNamedRoom(first, b, pickB);
      var k :| 0 <= k < |first| && OnlyOpen(first, k) && first[k].roomUrl == RoomUrl(a);
      var k' :| 0 <= k' < |second| && OnlyOpen(second, k') && second[k'].roomUrl == RoomUrl(b);
    }
  }

  /** Joining keeps the registry invariant: URLs stay unique, and a new
      room comes from `Room::new`. */
  lemma JoinKeepsValid(rooms: seq<Room>, name: string, pick: PaletteIndex)
    requires RegistryValid(rooms)
    ensures RegistryValid(JoinOrFocus(rooms, name, pick))
  {
    var r := JoinOrFocus(rooms, name, pick);
    if name != "" {
      forall k | 0 <= k < |r|
        ensures RoomValid(r[k])
      {
        if k < |rooms| {
          assert r[k] == rooms[k].(isWindowOpen := r[k].isWindowOpen);
        }
      }
      forall i, j | 0 <= i < j < |r|
        ensures r[i].roomUrl != r[j].roomUrl
      {
        if j < |rooms| {
          assert r[i].roomUrl == rooms[i].roomUrl && r[j].roomUrl == rooms[j].roomUrl;
        } else {
          assert r[i].roomUrl == rooms[i].roomUrl;
        }
      }
    }
  }

  /** Focusing keeps the registry invariant. */
  lemma FocusKeepsValid(rooms: seq<Room>, index: nat)
    requires RegistryValid(rooms)
    ensures RegistryValid(Focused(rooms, index))
  {
    var r := Focused(rooms, index);
    forall k | 0 <= k < |r|
      ensures RoomValid(r[k]) && r[k].roomUrl == rooms[k].roomUrl
    {
      assert r[k] == rooms[k].(isWindowOpen := r[k].isWindowOpen);
    }
  }

  /** What the user can do to the room list. */
  datatype Command = Join(name: string, pick: PaletteIndex) | Focus(index: nat)

  function Apply(rooms: seq<Room>, c: Command): seq<Room> {
    match c
    case Join(name, pick) => JoinOrFocus(rooms, name, pick)
    case Focus(index) => Focused(rooms, index)
  }

  function Run(rooms: seq<Room>, commands: seq<Command>): seq<Room>
    decreases |commands|
  {
    if commands == [] then rooms
    else Apply(Run(rooms, commands[..|commands| - 1]), commands[|commands| - 1])
  }

  /** A join of a non-empty name, or a focus on an existing room, leaves
      exactly one room open; any other command leaves at most one open if
      at most one was. */
  lemma ApplyOpensAtMostOne(rooms: seq<Room>, c: Command)
    requires AtMostOneOpen(rooms)
    ensures AtMostOneOpen(Apply(rooms, c))
    ensures (c.Join? && c.name != "") || (c.Focus? && c.index < |rooms|) ==>
              exists k :: 0 <= k < |Apply(rooms, c)| && OnlyOpen(Apply(rooms, c), k)
  {
    match c
    case Join(name, pick) =>
      if name != "" {
        JoinOpensNamedRoom(rooms, name, pick);
      }
    case Focus(index) =>
      if index < |rooms| {
        assert OnlyOpen(Focused(rooms, index), index);
      }
  }

  /** From at most one open room, any sequence of joins and focuses keeps
      at most one open, and exactly one after a non-empty join or a focus
      on an existing room. */
  lemma {:induction false} RunKeepsAtMostOneOpen(rooms: seq<Room>, commands: seq<Command>)
    requires AtMostOneOpen(rooms)
    ensures AtMostOneOpen(Run(rooms, commands))
    ensures commands != [] ==>
              var last := commands[|commands| - 1];
              var before := Run(rooms, commands[..|commands| - 1]);
              (last.Join? && last.name != "") || (last.Focus? && last.index < |before|) ==>
                exists k :: 0 <= k < |Run(rooms, commands)| && OnlyOpen(Run(rooms, commands), k)
    decreases |commands|
  {
    if commands != [] {
      RunKeepsAtMostOneOpen(rooms, commands[..|commands| - 1]);
      ApplyOpensAtMostOne(Run(rooms, commands[..|commands| - 1]), commands[|commands| - 1]);
    }
  }

  /** The application state: the joined rooms and the Room URL text box. */
  class AppState {
    var rooms: seq<Room>
    var inputRoomUrl: string

    ghost predicate Valid()
      reads this
    {
      RegistryValid(rooms)
    }

    /** Start-up: an empty room list and text box, then `setup` joins the
        start room. */
    constructor (pick: PaletteIndex)
      ensures Valid()
      ensures rooms == [NewRoom(StartRoom, pick)] && inputRoomUrl == ""
    {
      rooms := [];
      inputRoomUrl := "";
      var room := NewRoom(StartRoom, pick);
      rooms := rooms + [room];
    }

    /** The user edits the Room URL text box. */
    method EditRoomUrl(text: string)
      modifies this
      ensures rooms == old(rooms) && inputRoomUrl == text
    {
      inputRoomUrl := text;
    }

    /** The user edits the message text box of the open room. */
    method EditInputText(index: nat, text: string)
      requires Valid() && index < |rooms| && rooms[index].isWindowOpen
      modifies this
      ensures Valid()
      ensures rooms == old(rooms)[index := old(rooms)[index].(inputText := text)]
      ensures inputRoomUrl == old(inputRoomUrl)
    {
      rooms := rooms[index := rooms[index].(inputText := text)];
    }

    /** Between ticks the transport of a room buffers peer events and
        packets and revises the set of connected peers. This step stands
        for the network; it is not code of the client. */
    method TransportDelivers(index: nat, connected: seq<PeerId>, events: seq<PeerEvent>, packets: seq<Packet>)
      requires Valid() && index < |rooms| && Distinct(connected)
      modifies this
      ensures Valid()
      ensures rooms == old(rooms)[index := old(rooms)[index].(socket := old(rooms)[index].socket.(
                connected := connected,
                events := old(rooms)[index].socket.events + events,
                inbox := old(rooms)[index].socket.inbox + packets))]
      ensures inputRoomUrl == old(inputRoomUrl)
    {
      var room := rooms[index];
      rooms := rooms[index := room.(socket := room.socket.(
        connected := connected,
        events := room.socket.events + events,
        inbox := room.socket.inbox + packets))];
    }

    /** Opens the room at `index` alone (every room when `index` is past
        the end is closed): the loop the client writes three times. */
    method ShowOnly(index: nat)
      modifies this
      ensures rooms == Focused(old(rooms), index)
      ensures inputRoomUrl == old(inputRoomUrl)
    {
      for i := 0 to |rooms|
        invariant |rooms| == |old(rooms)| && inputRoomUrl == old(inputRoomUrl)
        invariant forall j :: 0 <= j < i ==> rooms[j] == old(rooms)[j].(isWindowOpen := j == index)
        invariant forall j :: i <= j < |rooms| ==> rooms[j] == old(rooms)[j]
      {
        rooms := rooms[i := rooms[i].(isWindowOpen := i == index)];
      }
      assert forall j :: 0 <= j < |rooms| ==> rooms[j] == Focused(old(rooms), index)[j];
    }

    /** The Connect button. The candidate room is built before the empty
        check, as the client does; for an empty name it is dropped. */
    method Connect(pick: PaletteIndex)
      requires Valid()
      modifies this
      ensures Valid()
      ensures rooms == JoinOrFocus(old(rooms), old(inputRoomUrl), pick)
      ensures inputRoomUrl == ""
    {
      var inputRoom := NewRoom(inputRoomUrl, pick);
      if inputRoomUrl == "" {
        return;
      }
      JoinKeepsValid(rooms, inputRoomUrl, pick);
      var found := IndexOfUrl(rooms, inputRoom.roomUrl);
      match found {
        case Some(index) =>
          ShowOnly(index);
        case None =>
          ShowOnly(|rooms|);
          rooms := rooms + [inputRoom];
          assert rooms == Focused(old(rooms) + [inputRoom], |old(rooms)|);
      }
      inputRoomUrl := "";
    }

    /** A click on the room at `index` in the Rooms list, which only lists
        joined rooms. */
    method FocusRoom(index: nat)
      requires Valid() && index < |rooms|
      modifies this
      ensures Valid()
      ensures rooms == Focused(old(rooms), index)
      ensures inputRoomUrl == old(inputRoomUrl)
    {
      FocusKeepsValid(rooms, index);
      ShowOnly(index);
    }

    /** The `handle_peers` system: every room answers its peer events. */
    method HandlePeers()
      requires Valid()
      modifies this
      ensures Valid()
      ensures |rooms| == |old(rooms)|
      ensures forall k :: 0 <= k < |rooms| ==> rooms[k] == Session.PeersHandled(old(rooms)[k])
      ensures inputRoomUrl == old(inputRoomUrl)
    {
      for i := 0 to |rooms|
        invariant |rooms| == |old(rooms)| && inputRoomUrl == old(inputRoomUrl)
        invariant forall k :: 0 <= k < i ==> rooms[k] == Session.PeersHandled(old(rooms)[k])
        invariant forall k :: i <= k < |rooms| ==> rooms[k] == old(rooms)[k]
        invariant Valid()
      {
        Session.PeersHandledKeepsValid(rooms[i]);
        var room := Session.HandleRoomPeers(rooms[i]);
        rooms := rooms[i := room];
      }
    }

    /** The `accept_messages` system: one date for the tick, then every
        room ingests its packets; `choose(k)` stands for the colour draws
        in the room at `k`. */
    method AcceptMessages(date: string, choose: nat -> nat -> PaletteIndex)
      requires Valid()
      modifies this
      ensures Valid()
      ensures |rooms| == |old(rooms)|
      ensures forall k :: 0 <= k < |rooms| ==> rooms[k] == Session.MessagesAccepted(old(rooms)[k], date, choose(k))
      ensures inputRoomUrl == old(inputRoomUrl)
    {
      for i := 0 to |rooms|
        invariant |rooms| == |old(rooms)| && inputRoomUrl == old(inputRoomUrl)
        invariant forall k :: 0 <= k < i ==> rooms[k] == Session.MessagesAccepted(old(rooms)[k], date, choose(k))
        invariant forall k :: i <= k < |rooms| ==> rooms[k] == old(rooms)[k]
        invariant Valid()
      {
        Session.AcceptKeepsValid(rooms[i], date, choose(i));
        var room := Session.AcceptRoomMessages(rooms[i], date, choose(i));
        rooms := rooms[i := room];
      }
    }

    /** The Send button of the room at `index`; the client only shows it
        for an open room. */
    method Send(index: nat, date: string)
      requires Valid() && index < |rooms| && rooms[index].isWindowOpen
      modifies this
      ensures Valid()
      ensures rooms == old(rooms)[index := Session.MessageSent(old(rooms)[index], date)]
      ensures inputRoomUrl == old(inputRoomUrl)
    {
      Session.SendKeepsValid(rooms[index], date);
      var room := Session.SendFromRoom(rooms[index], date);
      rooms := rooms[index := room];
    }
  }
}
