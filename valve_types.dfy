/**
 * The Valve protocol's value types (`crate::protocols::valve` and its `types`
 * module). That module is not part of this model; the records below carry
 * exactly the fields `protocol.rs` reads and builds. Strings are kept as
 * their UTF-8 bytes, which is what a Rust `String` is.
 */
module ValveTypes {
  import opened Base
  import opened Bufferer

  /** The engine family queried, and for Source an optional expected app id. */
  datatype App = GoldSrc(force: bool) | Source(expected: Option<u32>)

  /** Steam app ids the protocol code singles out (`SteamID::as_app`). */
  const CSS_ID: u32 := 240   // Counter-Strike: Source
  const TS_ID: u32 := 2400   // The Ship
  const CSS: App := Source(Some(CSS_ID))
  const TS: App := Source(Some(TS_ID))

  /** The three query kinds; `Code` is the kind byte on the wire (`kind as u8`). */
  datatype Request = Info | Players | Rules {
    function Code(): byte {
      match this
      case Info => 0x54
      case Players => 0x55
      case Rules => 0x56
    }
  }

  const INFO_KIND: byte := 0x54
  /** Kind of a reply that asks for the challenge to be echoed (`'A'`). */
  const CHALLENGE_KIND: byte := 0x41
  /** First byte of a split datagram. */
  const SPLIT_MARKER: byte := 0xFE

  datatype Server = Dedicated | NonDedicated | TV

  datatype Environment = Linux | Windows | Mac

  datatype TheShip = TheShip(mode: byte, witnesses: byte, duration: byte)

  datatype ModData = ModData(
    link: seq<byte>,
    downloadLink: seq<byte>,
    version: u32,
    size: u32,
    multiplayerOnly: bool,
    hasOwnDll: bool)

  datatype ExtraData = ExtraData(
    port: Option<u16>,
    steamId: Option<u64>,
    tvPort: Option<u16>,
    tvName: Option<seq<byte>>,
    keywords: Option<seq<byte>>,
    gameId: Option<u64>)

  datatype ServerInfo = ServerInfo(
    protocol: byte,
    name: seq<byte>,
    mapName: seq<byte>,
    folder: seq<byte>,
    game: seq<byte>,
    appid: u32,
    players: byte,
    maxPlayers: byte,
    bots: byte,
    serverType: Server,
    environmentType: Environment,
    hasPassword: bool,
    vacSecured: bool,
    theShip: Option<TheShip>,
    version: seq<byte>,
    extraData: Option<ExtraData>,
    isMod: bool,
    modData: Option<ModData>)

  /** `duration` is an `f32` in the source; the model carries its 32 raw bits. */
  datatype ServerPlayer = ServerPlayer(
    name: seq<byte>,
    score: u32,
    durationBits: u32,
    deaths: Option<u32>,
    money: Option<u32>)

  datatype ServerRule = ServerRule(name: seq<byte>, value: seq<byte>)

  datatype GatheringSettings = GatheringSettings(players: bool, rules: bool)

  /** Both extra requests are made unless the caller says otherwise. */
  const DEFAULT_GATHERING: GatheringSettings := GatheringSettings(true, true)

  datatype Response = Response(
    info: ServerInfo,
    players: Option<seq<ServerPlayer>>,
    rules: Option<seq<ServerRule>>)
}
