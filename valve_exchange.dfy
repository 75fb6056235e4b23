/**
 * The conversation `ValveProtocol` holds with a server, as functions of the
 * socket's state: the datagrams still to arrive, in arrival order, and the
 * log of datagrams sent so far. Each function returns the outcome together
 * with the state it leaves; the methods of `ValveClient.ValveProtocol` are
 * specified by them.
 */
module ValveExchange {
  import opened Base
  import opened Errors
  import opened Bufferer
  import opened ValveTypes
  import opened ValvePacket
  import opened ValveInfo
  import opened ValveLists

  /** What the client sees of its UDP socket. */
  datatype Net = Net(incoming: seq<seq<byte>>, sent: seq<seq<byte>>)

  /** An outcome and the socket state after it. */
  datatype Exchange<T> = Exchange(result: GDResult<T>, net: Net)

  /** What a receive with nothing left to arrive reports (a read timeout). */
  const RECEIVE_FAILED: GDError := PacketReceive("Timed out while waiting for a datagram.")

  /** `b` is what remains of `a` after some datagrams were taken from its front. */
  predicate Suffix(b: seq<seq<byte>>, a: seq<seq<byte>>) {
    |b| <= |a| && b == a[|a| - |b|..]
  }

  function SendBytes(net: Net, bytes: seq<byte>): Net {
    Net(net.incoming, net.sent + [bytes])
  }

  /** One receive: the next datagram, or a failure when none arrives. */
  function Datagram(net: Net): (e: Exchange<seq<byte>>)
    ensures e.net.sent == net.sent
    ensures net.incoming == [] ==> e == Exchange(Err(RECEIVE_FAILED), net)
    ensures net.incoming != [] ==> e == Exchange(Ok(net.incoming[0]), Net(net.incoming[1..], net.sent))
  {
    if net.incoming == [] then Exchange(Err(RECEIVE_FAILED), net)
    else Exchange(Ok(net.incoming[0]), Net(net.incoming[1..], net.sent))
  }

  // ---------------------------------------------------------------------------
  // Receiving one logical packet

  /** How many datagrams follow the first fragment: `for _ in 1..total`. */
  function MoreFragments(total: byte): nat {
    if total == 0 then 0 else total - 1
  }

  /** A decoder of one fragment; the client uses `FragmentDecoder(app, protocol)`. */
  type Fragmenter = seq<byte> -> GDResult<SplitPacket>

  function FragmentDecoder(app: App, protocol: byte): Fragmenter {
    d => DecodeSplit(app, protocol, d)
  }

  /** The bytes gathered from further fragments, and the datagrams left after them. */
  datatype Gathered = Gathered(result: GDResult<seq<byte>>, rest: seq<seq<byte>>)

  /**
   * Receives `n` more fragments and appends their payloads in arrival order;
   * the first datagram that is missing or does not decode ends the loop
   * with its error.
   */
  function Gather(decode: Fragmenter, inbox: seq<seq<byte>>, n: nat): (g: Gathered)
    ensures Suffix(g.rest, inbox)
    ensures g.result.Ok? ==> n <= |inbox| && g.rest == inbox[n..]
    decreases n
  {
    if n == 0 then Gathered(Ok([]), inbox)
    else if inbox == [] then Gathered(Err(RECEIVE_FAILED), inbox)
    else
      var chunk := decode(inbox[0]);
      if chunk.Err? then Gathered(Err(chunk.error), inbox[1..])
      else Prefixed(chunk.value.payload, Gather(decode, inbox[1..], n - 1))
  }

  /** The same gathering, with `acc` already collected in front. */
  function Prefixed(acc: seq<byte>, g: Gathered): Gathered {
    Gathered(if g.result.Ok? then Ok(acc + g.result.value) else g.result, g.rest)
  }

  /** `Packet::new` over the reassembled payload, when there is one. */
  function DecodeWhole(payload: GDResult<seq<byte>>): GDResult<Packet> {
    if payload.Err? then Err(payload.error) else DecodePacket(payload.value)
  }

  /** The rest of a split reply after its first fragment `main`. */
  function Reassemble(app: App, protocol: byte, decompress: Decompressor, main: SplitPacket, net: Net)
    : (e: Exchange<Packet>)
    requires HasIntegrityWords(main)
    ensures e.net.sent == net.sent && Suffix(e.net.incoming, net.incoming)
  {
    var g := Gather(FragmentDecoder(app, protocol), net.incoming, MoreFragments(main.total));
    var after := Net(g.rest, net.sent);
    if g.result.Err? then Exchange(Err(g.result.error), after)
    else Exchange(DecodeWhole(Payload(main.(payload := main.payload + g.result.value), decompress)), after)
  }

  /**
   * `receive`: one datagram; its first byte is looked at without being
   * consumed. A split marker makes it the first fragment of a split reply.
   * Nothing is ever sent, and at least one datagram is taken when one is there.
   */
  function ReceiveExchange(app: App, protocol: byte, decompress: Decompressor, net: Net): (e: Exchange<Packet>)
    ensures e.net.sent == net.sent && Suffix(e.net.incoming, net.incoming)
    ensures net.incoming != [] ==> |e.net.incoming| < |net.incoming|
  {
    var first := Datagram(net);
    if first.result.Err? then Exchange(Err(first.result.error), first.net)
    else
      var data := first.result.value;
      if |data| == 0 then Exchange(Err(UNDERFLOW), first.net)
      else if data[0] != SPLIT_MARKER then Exchange(DecodePacket(data), first.net)
      else
        var main := DecodeSplit(app, protocol, data);
        if main.Err? then Exchange(Err(main.error), first.net)
        else Reassemble(app, protocol, decompress, main.value, first.net)
  }

  // ---------------------------------------------------------------------------
  // Reassembly in arrival order

  /** The payload bytes of a sequence of chunks, one after the other. */
  function Flatten(xs: seq<seq<byte>>): seq<byte> {
    if xs == [] then [] else xs[0] + Flatten(xs[1..])
  }

  /** Each of the first `n` datagrams is there and is a fragment. */
  predicate AllFragments(decode: Fragmenter, inbox: seq<seq<byte>>, n: nat) {
    n <= |inbox| && forall i :: 0 <= i < n ==> decode(inbox[i]).Ok?
  }

  /** The payloads of the first `n` datagrams, decoded as fragments, in the order they arrived. */
  function FragmentPayloads(decode: Fragmenter, inbox: seq<seq<byte>>, n: nat): (ps: seq<seq<byte>>)
    requires AllFragments(decode, inbox, n)
    ensures |ps| == n && forall i :: 0 <= i < n ==> ps[i] == decode(inbox[i]).value.payload
  {
    seq(n, i requires 0 <= i < n => decode(inbox[i]).value.payload)
  }

  lemma FragmentPayloadsTail(decode: Fragmenter, inbox: seq<seq<byte>>, n: nat)
    requires n > 0 && AllFragments(decode, inbox, n)
    ensures AllFragments(decode, inbox[1..], n - 1)
    ensures FragmentPayloads(decode, inbox, n)
      == [decode(inbox[0]).value.payload] + FragmentPayloads(decode, inbox[1..], n - 1)
  {
    forall i | 0 <= i < n - 1 ensures decode(inbox[1..][i]).Ok? {
      assert inbox[1..][i] == inbox[i + 1];
    }
    var whole := FragmentPayloads(decode, inbox, n);
    var tail := FragmentPayloads(decode, inbox[1..], n - 1);
    forall i | 0 <= i < n - 1 ensures whole[i + 1] == tail[i] {
      assert inbox[1..][i] == inbox[i + 1];
    }
    assert whole == [whole[0]] + tail;
  }

  /** The first `n` datagrams are fragments when the first is and the `n - 1` after it are. */
  lemma AllFragmentsCons(decode: Fragmenter, inbox: seq<seq<byte>>, n: nat)
    requires n > 0 && inbox != []
    ensures AllFragments(decode, inbox, n)
      <==> decode(inbox[0]).Ok? && AllFragments(decode, inbox[1..], n - 1)
  {
    if decode(inbox[0]).Ok? && AllFragments(decode, inbox[1..], n - 1) {
      forall i | 0 <= i < n ensures decode(inbox[i]).Ok? {
        if i > 0 { assert inbox[i] == inbox[1..][i - 1]; }
      }
    }
    if AllFragments(decode, inbox, n) {
      forall i | 0 <= i < n - 1 ensures decode(inbox[1..][i]).Ok? {
        assert inbox[1..][i] == inbox[i + 1];
      }
    }
  }

  /**
   * Gathering `n` fragments succeeds exactly when `n` datagrams are there
   * and every one of them is a fragment; it then takes exactly those `n`
   * and yields their payloads concatenated in arrival order.
   */
  lemma {:induction false} GatherInArrivalOrder(decode: Fragmenter, inbox: seq<seq<byte>>, n: nat)
    ensures Gather(decode, inbox, n).result.Ok? <==> AllFragments(decode, inbox, n)
    ensures AllFragments(decode, inbox, n) ==>
      Gather(decode, inbox, n) == Gathered(Ok(Flatten(FragmentPayloads(decode, inbox, n))), inbox[n..])
    decreases n
  {
    if n == 0 {
      assert FragmentPayloads(decode, inbox, 0) == [];
    } else if inbox != [] {
      GatherInArrivalOrder(decode, inbox[1..], n - 1);
      AllFragmentsCons(decode, inbox, n);
      if AllFragments(decode, inbox, n) {
        FragmentPayloadsTail(decode, inbox, n);
        assert inbox[1..][n - 1..] == inbox[n..];
      }
    }
  }

  /**
   * A split reply whose first fragment declares `total` takes exactly
   * `max(total, 1)` datagrams when all of them are fragments, and decodes
   * the integrity-checked concatenation of their payloads, in arrival order,
   * as one packet; `number` plays no part. When one of them is missing or is
   * not a fragment, the receive fails and no packet is produced.
   */
  lemma ReassemblyInArrivalOrder(app: App, protocol: byte, decompress: Decompressor, net: Net)
    requires net.incoming != [] && |net.incoming[0]| > 0 && net.incoming[0][0] == SPLIT_MARKER
    requires DecodeSplit(app, protocol, net.incoming[0]).Ok?
    ensures
      var decode := FragmentDecoder(app, protocol);
      var main := DecodeSplit(app, protocol, net.incoming[0]).value;
      var n := MoreFragments(main.total) + 1;
      var e := ReceiveExchange(app, protocol, decompress, net);
      && (e.result.Ok? ==> AllFragments(decode, net.incoming, n))
      && (AllFragments(decode, net.incoming, n) ==>
        && e.net == Net(net.incoming[n..], net.sent)
        && e.result == DecodeWhole(Payload(main.(payload := Flatten(FragmentPayloads(decode, net.incoming, n))), decompress))
        && (!main.compressed ==> e.result == DecodePacket(Flatten(FragmentPayloads(decode, net.incoming, n)))))
  {
    var decode := FragmentDecoder(app, protocol);
    var inbox := net.incoming;
    assert decode(inbox[0]) == DecodeSplit(app, protocol, inbox[0]);
    var main := decode(inbox[0]).value;
    var m := MoreFragments(main.total);
    GatherInArrivalOrder(decode, inbox[1..], m);
    AllFragmentsCons(decode, inbox, m + 1);
    if AllFragments(decode, inbox, m + 1) {
      FragmentPayloadsTail(decode, inbox, m + 1);
      assert inbox[1..][m..] == inbox[m + 1..];
    }
  }

  /**
   * A reply that is not split takes exactly one datagram and is that
   * datagram decoded; an empty datagram underflows at the peek, and an
   * empty inbox is a receive failure that takes nothing.
   */
  lemma ReceiveUnsplit(app: App, protocol: byte, decompress: Decompressor, net: Net)
    ensures net.incoming == [] ==> ReceiveExchange(app, protocol, decompress, net) == Exchange(Err(RECEIVE_FAILED), net)
    ensures net.incoming != [] && net.incoming[0] == [] ==>
      ReceiveExchange(app, protocol, decompress, net) == Exchange(Err(UNDERFLOW), Net(net.incoming[1..], net.sent))
    ensures net.incoming != [] && net.incoming[0] != [] && net.incoming[0][0] != SPLIT_MARKER ==>
      ReceiveExchange(app, protocol, decompress, net)
        == Exchange(DecodePacket(net.incoming[0]), Net(net.incoming[1..], net.sent))
  {
  }

  // ---------------------------------------------------------------------------
  // The request handshake

  /**
   * `get_request_data`: send the initial request, and when the reply is a
   * challenge, echo it in a challenge request and take the second reply.
   */
  function RequestExchange(app: App, protocol: byte, kind: Request, decompress: Decompressor, net: Net)
    : (e: Exchange<seq<byte>>)
    ensures |net.sent| + 1 <= |e.net.sent| <= |net.sent| + 2
    ensures e.net.sent[..|net.sent|] == net.sent && e.net.sent[|net.sent|] == ToBytes(Initial(kind))
  {
    var first := ReceiveExchange(app, protocol, decompress, SendBytes(net, ToBytes(Initial(kind))));
    if first.result.Err? then Exchange(Err(first.result.error), first.net)
    else if first.result.value.kind != CHALLENGE_KIND then Exchange(Ok(first.result.value.payload), first.net)
    else
      var challenge := ToBytes(Challenge(kind, first.result.value.payload));
      var second := ReceiveExchange(app, protocol, decompress, SendBytes(first.net, challenge));
      if second.result.Err? then Exchange(Err(second.result.error), second.net)
      else Exchange(Ok(second.result.value.payload), second.net)
  }

  /** The first reply to the initial request for `kind`. */
  function FirstReply(app: App, protocol: byte, kind: Request, decompress: Decompressor, net: Net): Exchange<Packet> {
    ReceiveExchange(app, protocol, decompress, SendBytes(net, ToBytes(Initial(kind))))
  }

  /**
   * A reply that is not a challenge is returned as it is, after exactly one
   * request; a challenge costs exactly one more request, which echoes the
   * challenge, and the second reply's payload is returned.
   */
  lemma Handshake(app: App, protocol: byte, kind: Request, decompress: Decompressor, net: Net)
    ensures
      var first := FirstReply(app, protocol, kind, decompress, net);
      var e := RequestExchange(app, protocol, kind, decompress, net);
      && (first.result.Err? ==> e.result == Err(first.result.error) && e.net.sent == net.sent + [ToBytes(Initial(kind))])
      && (first.result.Ok? && first.result.value.kind != CHALLENGE_KIND ==>
        && e.result == Ok(first.result.value.payload)
        && e.net == first.net
        && e.net.sent == net.sent + [ToBytes(Initial(kind))])
      && (first.result.Ok? && first.result.value.kind == CHALLENGE_KIND ==>
        var challenge := ToBytes(Challenge(kind, first.result.value.payload));
        var second := ReceiveExchange(app, protocol, decompress, SendBytes(first.net, challenge));
        && (second.result.Err? ==> e.result == Err(second.result.error))
        && (second.result.Ok? ==> e.result == Ok(second.result.value.payload))
        && e.net == second.net
        && e.net.sent == net.sent + [ToBytes(Initial(kind)), challenge])
  {
  }

  // ---------------------------------------------------------------------------
  // The three requests and the response

  /** `get_server_info`: always requested with protocol 0, then parsed for `app`. */
  function InfoExchange(app: App, decompress: Decompressor, net: Net): (e: Exchange<ServerInfo>)
    ensures |net.sent| + 1 <= |e.net.sent| <= |net.sent| + 2 && e.net.sent[..|net.sent|] == net.sent
  {
    var data := RequestExchange(app, 0, Info, decompress, net);
    if data.result.Err? then Exchange(Err(data.result.error), data.net)
    else Exchange(InfoOf(app, data.result.value), data.net)
  }

  /** `get_server_players`, with the protocol the info reply gave. */
  function PlayersExchange(app: App, protocol: byte, decompress: Decompressor, net: Net)
    : (e: Exchange<seq<ServerPlayer>>)
    ensures |net.sent| + 1 <= |e.net.sent| <= |net.sent| + 2 && e.net.sent[..|net.sent|] == net.sent
  {
    var data := RequestExchange(app, protocol, Players, decompress, net);
    if data.result.Err? then Exchange(Err(data.result.error), data.net)
    else Exchange(DecodePlayers(app, data.result.value), data.net)
  }

  /** `get_server_rules`, with the protocol the info reply gave. */
  function RulesExchange(app: App, protocol: byte, decompress: Decompressor, net: Net)
    : (e: Exchange<Option<seq<ServerRule>>>)
    ensures |net.sent| + 1 <= |e.net.sent| <= |net.sent| + 2 && e.net.sent[..|net.sent|] == net.sent
    ensures e.result.Ok? ==> e.result.value.Some?
  {
    var data := RequestExchange(app, protocol, Rules, decompress, net);
    if data.result.Err? then Exchange(Err(data.result.error), data.net)
    else Exchange(DecodeRules(data.result.value), data.net)
  }

  /** The caller named an app id and the server reported another. */
  predicate WrongGame(app: App, info: ServerInfo) {
    app.Source? && app.expected.Some? && app.expected.value != info.appid
  }

  function BadGameMessage(expected: u32, found: u32): string {
    "Expected " + Decimal(expected) + ", found " + Decimal(found) + " instead!"
  }

  /** The player list, requested only when `wanted`. */
  function OptionalPlayers(app: App, protocol: byte, decompress: Decompressor, wanted: bool, net: Net)
    : (e: Exchange<Option<seq<ServerPlayer>>>)
    ensures !wanted ==> e == Exchange(Ok(None), net)
    ensures e.result.Ok? ==> (e.result.value.Some? <==> wanted)
    ensures |net.sent| + (if wanted then 1 else 0) <= |e.net.sent| <= |net.sent| + (if wanted then 2 else 0)
    ensures e.net.sent[..|net.sent|] == net.sent
  {
    if !wanted then Exchange(Ok(None), net)
    else
      var players := PlayersExchange(app, protocol, decompress, net);
      if players.result.Err? then Exchange(Err(players.result.error), players.net)
      else Exchange(Ok(Some(players.result.value)), players.net)
  }

  /** The rule list, requested only when `wanted`. */
  function OptionalRules(app: App, protocol: byte, decompress: Decompressor, wanted: bool, net: Net)
    : (e: Exchange<Option<seq<ServerRule>>>)
    ensures !wanted ==> e == Exchange(Ok(None), net)
    ensures e.result.Ok? ==> (e.result.value.Some? <==> wanted)
    ensures |net.sent| + (if wanted then 1 else 0) <= |e.net.sent| <= |net.sent| + (if wanted then 2 else 0)
    ensures e.net.sent[..|net.sent|] == net.sent
  {
    if !wanted then Exchange(Ok(None), net) else RulesExchange(app, protocol, decompress, net)
  }

  /**
   * `get_response`: the info, the app-id check, then players and rules as
   * the gathering settings ask, each with the protocol the info reply gave.
   */
  function ResponseExchange(app: App, gathering: GatheringSettings, decompress: Decompressor, net: Net)
    : (e: Exchange<Response>)
    ensures e.result.Ok? ==>
      && InfoExchange(app, decompress, net).result == Ok(e.result.value.info)
      && !WrongGame(app, e.result.value.info)
      && (e.result.value.players.Some? <==> gathering.players)
      && (e.result.value.rules.Some? <==> gathering.rules)
    ensures e.result.Ok? ==>
      var info := InfoExchange(app, decompress, net);
      var protocol := info.result.value.protocol;
      var players := PlayersExchange(app, protocol, decompress, info.net);
      var rules := RulesExchange(app, protocol, decompress, if gathering.players then players.net else info.net);
      && (gathering.players ==> players.result.Ok? && e.result.value.players == Some(players.result.value))
      && (gathering.rules ==> rules.result.Ok? && e.result.value.rules == rules.result.value)
  {
    var info := InfoExchange(app, decompress, net);
    if info.result.Err? then Exchange(Err(info.result.error), info.net)
    else if WrongGame(app, info.result.value) then
      Exchange(Err(BadGame(BadGameMessage(app.expected.value, info.result.value.appid))), info.net)
    else
      var protocol := info.result.value.protocol;
      var players := OptionalPlayers(app, protocol, decompress, gathering.players, info.net);
      if players.result.Err? then Exchange(Err(players.result.error), players.net)
      else
        var rules := OptionalRules(app, protocol, decompress, gathering.rules, players.net);
        if rules.result.Err? then Exchange(Err(rules.result.error), rules.net)
        else Exchange(Ok(Response(info.result.value, players.result.value, rules.result.value)), rules.net)
  }

  /**
   * A wrong game is reported as `BadGame` with both app ids, right after the
   * info exchange: no players or rules request is sent.
   */
  lemma WrongGameStopsEarly(app: App, gathering: GatheringSettings, decompress: Decompressor, net: Net)
    requires InfoExchange(app, decompress, net).result.Ok?
    requires WrongGame(app, InfoExchange(app, decompress, net).result.value)
    ensures
      var info := InfoExchange(app, decompress, net);
      var e := ResponseExchange(app, gathering, decompress, net);
      && e.result == Err(BadGame(BadGameMessage(app.expected.value, info.result.value.appid)))
      && e.net == info.net
      && DecimalValue(Decimal(app.expected.value)) == app.expected.value
  {
    DecimalRoundTrip(app.expected.value);
  }

  /**
   * Each request the response makes sends one or two datagrams: one to
   * two for the info, and as many again for players and for rules only
   * when they are gathered.
   */
  lemma ResponseRequestCount(app: App, gathering: GatheringSettings, decompress: Decompressor, net: Net)
    requires ResponseExchange(app, gathering, decompress, net).result.Ok?
    ensures
      var k := 1 + (if gathering.players then 1 else 0) + (if gathering.rules then 1 else 0);
      var sent := ResponseExchange(app, gathering, decompress, net).net.sent;
      && |net.sent| + k <= |sent| <= |net.sent| + 2 * k
      && sent[..|net.sent|] == net.sent
  {
    var info := InfoExchange(app, decompress, net);
    var protocol := info.result.value.protocol;
    var players := OptionalPlayers(app, protocol, decompress, gathering.players, info.net);
    var rules := OptionalRules(app, protocol, decompress, gathering.rules, players.net);
    PrefixTransitive(net.sent, info.net.sent, players.net.sent);
    PrefixTransitive(net.sent, players.net.sent, rules.net.sent);
  }

  lemma PrefixTransitive(a: seq<seq<byte>>, b: seq<seq<byte>>, c: seq<seq<byte>>)
    requires |a| <= |b| <= |c| && b[..|a|] == a && c[..|b|] == b
    ensures c[..|a|] == a
  {
    assert c[..|a|] == c[..|b|][..|a|];
  }

  /** `query`: the response, with both lists gathered unless the caller says otherwise. */
  function QueryExchange(app: App, gathering: Option<GatheringSettings>, decompress: Decompressor, net: Net)
    : (e: Exchange<Response>)
    ensures gathering.None? ==> e == ResponseExchange(app, DEFAULT_GATHERING, decompress, net)
    ensures e.result.Ok? && gathering.None? ==> e.result.value.players.Some? && e.result.value.rules.Some?
  {
    ResponseExchange(app, if gathering.Some? then gathering.value else DEFAULT_GATHERING, decompress, net)
  }
}
