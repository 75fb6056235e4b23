/**
 * The stateful client: a UDP socket that replays the datagrams a server
 * sends and logs the datagrams sent to it, and `ValveProtocol`, whose
 * methods drive it the way `protocol.rs` does. Every method is specified by
 * the matching function of `ValveExchange` over the socket's state.
 */
module ValveClient {
  import opened Base
  import opened Errors
  import opened Bufferer
  import opened ValveTypes
  import opened ValvePacket
  import opened ValveInfo
  import opened ValveLists
  import opened ValveExchange

  /**
   * The socket: `incoming` holds the datagrams the server will send, in the
   * order they arrive; `sent` the datagrams sent so far.
   */
  class UdpSocket {
    var incoming: seq<seq<byte>>
    var sent: seq<seq<byte>>

    constructor (incoming: seq<seq<byte>>)
      ensures State() == Net(incoming, [])
    {
      this.incoming := incoming;
      sent := [];
    }

    function State(): Net
      reads this
    {
      Net(incoming, sent)
    }

    method Send(bytes: seq<byte>)
      modifies this
      ensures State() == SendBytes(old(State()), bytes)
    {
      sent := sent + [bytes];
    }

    method Receive() returns (r: GDResult<seq<byte>>)
      modifies this
      ensures Exchange(r, State()) == Datagram(old(State()))
    {
      if incoming == [] {
        r := Err(RECEIVE_FAILED);
      } else {
        r := Ok(incoming[0]);
        incoming := incoming[1..];
      }
    }
  }

  class ValveProtocol {
    const socket: UdpSocket
    /** The bzip2 decoder split replies are decompressed with. */
    const decompress: Decompressor

    constructor (socket: UdpSocket, decompress: Decompressor)
      ensures this.socket == socket && this.decompress == decompress
    {
      this.socket := socket;
      this.decompress := decompress;
    }

    /** `receive`: one logical packet, gathered from as many fragments as the first declares. */
    method Receive(app: App, protocol: byte) returns (r: GDResult<Packet>)
      modifies socket
      ensures Exchange(r, socket.State()) == ReceiveExchange(app, protocol, decompress, old(socket.State()))
    {
      var data :- socket.Receive();
      var buffer := new Cursor(data);
      var header :- buffer.GetU8();
      buffer.MoveBackward(1);
      assert buffer.Rest() == data;
      if header == SPLIT_MARKER {
        var main :- NewSplitPacket(app, protocol, buffer);
        r := ReceiveFragments(app, protocol, main);
      } else {
        r := NewPacket(buffer);
      }
    }

    /** The rest of a split reply: the fragments after the first, and the packet they make. */
    method ReceiveFragments(app: App, protocol: byte, main: SplitPacket) returns (r: GDResult<Packet>)
      requires HasIntegrityWords(main)
      modifies socket
      ensures Exchange(r, socket.State()) == Reassemble(app, protocol, decompress, main, old(socket.State()))
    {
      var payload :- GatherFragments(app, protocol, main.total, main.payload);
      var whole :- Payload(main.(payload := payload), decompress);
      var packetBuffer := new Cursor(whole);
      r := NewPacket(packetBuffer);
    }

    /** One more datagram of a split reply, decoded as a fragment. */
    method ReceiveFragment(app: App, protocol: byte) returns (r: GDResult<SplitPacket>)
      modifies socket
      ensures socket.sent == old(socket.sent)
      ensures old(socket.incoming) == [] ==> r == Err(RECEIVE_FAILED) && socket.incoming == old(socket.incoming)
      ensures old(socket.incoming) != [] ==>
        r == DecodeSplit(app, protocol, old(socket.incoming)[0]) && socket.incoming == old(socket.incoming)[1..]
    {
      var newData :- socket.Receive();
      var buffer := new Cursor(newData);
      r := NewSplitPacket(app, protocol, buffer);
    }

    /**
     * The loop of `receive`: `for _ in 1..total`, receive a datagram, decode
     * it as a fragment and extend `payload` with its payload.
     */
    method GatherFragments(app: App, protocol: byte, total: byte, payload: seq<byte>) returns (r: GDResult<seq<byte>>)
      modifies socket
      ensures
        var g := Prefixed(payload, Gather(FragmentDecoder(app, protocol), old(socket.incoming), MoreFragments(total)));
        r == g.result && socket.State() == Net(g.rest, old(socket.sent))
    {
      ghost var decode := FragmentDecoder(app, protocol);
      ghost var all := Prefixed(payload, Gather(decode, socket.incoming, MoreFragments(total)));
      ghost var left: nat := MoreFragments(total);
      var acc := payload;
      var i := 1;
      while i < total
        invariant left == (if i < total then total - i else 0)
        invariant socket.sent == old(socket.sent)
        invariant all == Prefixed(acc, Gather(decode, socket.incoming, left))
      {
        ghost var before := socket.incoming;
        GatherStep(decode, before, left);
        var chunk := ReceiveFragment(app, protocol);
        if chunk.Err? {
          return Err(chunk.error);
        }
        assert decode(before[0]) == chunk;
        PrefixedTwice(acc, chunk.value.payload, Gather(decode, socket.incoming, left - 1));
        acc := acc + chunk.value.payload;
        i := i + 1;
        left := left - 1;
      }
      r := Ok(acc);
      assert acc + [] == acc;
    }

    /** `get_request_data`: the initial request, and the challenge round when the server asks for it. */
    method GetRequestData(app: App, protocol: byte, kind: Request) returns (r: GDResult<seq<byte>>)
      modifies socket
      ensures Exchange(r, socket.State()) == RequestExchange(app, protocol, kind, decompress, old(socket.State()))
    {
      socket.Send(ToBytes(Initial(kind)));
      var packet :- Receive(app, protocol);
      if packet.kind != CHALLENGE_KIND {
        return Ok(packet.payload);
      }
      socket.Send(ToBytes(Challenge(kind, packet.payload)));
      var second :- Receive(app, protocol);
      r := Ok(second.payload);
    }

    /** `get_server_info`. */
    method GetServerInfo(app: App) returns (r: GDResult<ServerInfo>)
      modifies socket
      ensures Exchange(r, socket.State()) == InfoExchange(app, decompress, old(socket.State()))
    {
      var data :- GetRequestData(app, 0, Info);
      r := ParseServerInfo(app, data);
    }

    /** `get_server_players`. */
    method GetServerPlayers(app: App, protocol: byte) returns (r: GDResult<seq<ServerPlayer>>)
      modifies socket
      ensures Exchange(r, socket.State()) == PlayersExchange(app, protocol, decompress, old(socket.State()))
    {
      var data :- GetRequestData(app, protocol, Players);
      r := ParsePlayers(app, data);
    }

    /** `get_server_rules`. */
    method GetServerRules(app: App, protocol: byte) returns (r: GDResult<Option<seq<ServerRule>>>)
      modifies socket
      ensures Exchange(r, socket.State()) == RulesExchange(app, protocol, decompress, old(socket.State()))
    {
      var data :- GetRequestData(app, protocol, Rules);
      r := ParseRules(data);
    }
  }

  /** `get_response`, over an already open socket. */
  method GetResponse(socket: UdpSocket, decompress: Decompressor, app: App, gathering: GatheringSettings)
    returns (r: GDResult<Response>)
    modifies socket
    ensures Exchange(r, socket.State()) == ResponseExchange(app, gathering, decompress, old(socket.State()))
  {
    var client := new ValveProtocol(socket, decompress);
    var info :- client.GetServerInfo(app);
    var protocol := info.protocol;
    if app.Source? && app.expected.Some? && app.expected.value != info.appid {
      return Err(BadGame(BadGameMessage(app.expected.value, info.appid)));
    }
    var players := None;
    if gathering.players {
      var list :- client.GetServerPlayers(app, protocol);
      players := Some(list);
    }
    var rules := None;
    if gathering.rules {
      rules :- client.GetServerRules(app, protocol);
    }
    r := Ok(Response(info, players, rules));
  }

  /** `query`: `get_response` with both lists gathered unless the caller says otherwise. */
  method Query(socket: UdpSocket, decompress: Decompressor, app: App, gathering: Option<GatheringSettings>)
    returns (r: GDResult<Response>)
    modifies socket
    ensures Exchange(r, socket.State()) == QueryExchange(app, gathering, decompress, old(socket.State()))
  {
    var settings := if gathering.Some? then gathering.value else DEFAULT_GATHERING;
    r := GetResponse(socket, decompress, app, settings);
  }

  lemma PrefixedTwice(a: seq<byte>, b: seq<byte>, g: Gathered)
    ensures Prefixed(a, Prefixed(b, g)) == Prefixed(a + b, g)
  {
    if g.result.Ok? {
      assert a + (b + g.result.value) == (a + b) + g.result.value;
    }
  }

  /** One turn of the gathering loop, read off `Gather`. */
  lemma GatherStep(decode: Fragmenter, inbox: seq<seq<byte>>, n: nat)
    requires n > 0
    ensures inbox == [] ==> Gather(decode, inbox, n) == Gathered(Err(RECEIVE_FAILED), [])
    ensures inbox != [] && decode(inbox[0]).Err? ==>
      Gather(decode, inbox, n) == Gathered(Err(decode(inbox[0]).error), inbox[1..])
    ensures inbox != [] && decode(inbox[0]).Ok? ==>
      Gather(decode, inbox, n) == Prefixed(decode(inbox[0]).value.payload, Gather(decode, inbox[1..], n - 1))
  {
  }
}
