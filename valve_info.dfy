/**
 * The two server-information layouts: the obsolete GoldSrc reply
 * (`get_goldsrc_server_info`) and the current one (the body of
 * `get_server_info`), with its flag-gated extra-data block.
 *
 * Each layout is a pure decoder on the reply's bytes and an imperative reader
 * that advances a `Cursor` field by field, proved equal to the decoder. An
 * encoder for each layout is the decoder's partner: decoding what it writes
 * gives the record back.
 */
module ValveInfo {
  import opened Base
  import opened Errors
  import opened Bufferer
  import opened ValveTypes

  // ---------------------------------------------------------------------------
  // Enumeration codes

  /** Server type in the obsolete layout: 'D', 'L', 'P'. */
  function LegacyServerType(b: byte): (r: GDResult<Server>)
    ensures r.Ok? <==> b == 68 || b == 76 || b == 80
    ensures r.Err? ==> r.error == UnknownEnumCast
  {
    if b == 68 then Ok(Dedicated)
    else if b == 76 then Ok(NonDedicated)
    else if b == 80 then Ok(TV)
    else Err(UnknownEnumCast)
  }

  function LegacyServerCode(s: Server): byte {
    match s
    case Dedicated => 68
    case NonDedicated => 76
    case TV => 80
  }

  /** Environment in the obsolete layout: 'L', 'W'; there is no Mac code. */
  function LegacyEnvironmentType(b: byte): (r: GDResult<Environment>)
    ensures r.Ok? <==> b == 76 || b == 87
    ensures r.Ok? ==> r.value != Mac
    ensures r.Err? ==> r.error == UnknownEnumCast
  {
    if b == 76 then Ok(Linux)
    else if b == 87 then Ok(Windows)
    else Err(UnknownEnumCast)
  }

  function LegacyEnvironmentCode(e: Environment): byte
    requires e != Mac
  {
    if e == Linux then 76 else 87
  }

  /** Server type in the current layout: 'd', 'l', 'p'. */
  function ServerType(b: byte): (r: GDResult<Server>)
    ensures r.Ok? <==> b == 100 || b == 108 || b == 112
    ensures r.Err? ==> r.error == UnknownEnumCast
  {
    if b == 100 then Ok(Dedicated)
    else if b == 108 then Ok(NonDedicated)
    else if b == 112 then Ok(TV)
    else Err(UnknownEnumCast)
  }

  function ServerCode(s: Server): byte {
    match s
    case Dedicated => 100
    case NonDedicated => 108
    case TV => 112
  }

  /** Environment in the current layout: 'l', 'w', and 'm' or 'o' for Mac. */
  function EnvironmentType(b: byte): (r: GDResult<Environment>)
    ensures r.Ok? <==> b == 108 || b == 119 || b == 109 || b == 111
    ensures r.Err? ==> r.error == UnknownEnumCast
  {
    if b == 108 then Ok(Linux)
    else if b == 119 then Ok(Windows)
    else if b == 109 || b == 111 then Ok(Mac)
    else Err(UnknownEnumCast)
  }

  /** The encoder writes 'm' for Mac. */
  function EnvironmentCode(e: Environment): byte {
    match e
    case Linux => 108
    case Windows => 119
    case Mac => 109
  }

  /** Each code table is a bijection between its accepted bytes and the variants. */
  lemma LegacyTablesBijective(b: byte, s: Server, e: Environment)
    ensures LegacyServerType(LegacyServerCode(s)) == Ok(s)
    ensures LegacyServerType(b).Ok? ==> LegacyServerCode(LegacyServerType(b).value) == b
    ensures e != Mac ==> LegacyEnvironmentType(LegacyEnvironmentCode(e)) == Ok(e)
    ensures LegacyEnvironmentType(b).Ok? ==> LegacyEnvironmentCode(LegacyEnvironmentType(b).value) == b
  {
  }

  /** The same for the current tables, where 'o' is a second spelling of Mac. */
  lemma TablesBijective(b: byte, s: Server, e: Environment)
    ensures ServerType(ServerCode(s)) == Ok(s)
    ensures ServerType(b).Ok? ==> ServerCode(ServerType(b).value) == b
    ensures EnvironmentType(EnvironmentCode(e)) == Ok(e)
    ensures EnvironmentType(b).Ok? ==> EnvironmentCode(EnvironmentType(b).value) == b || b == 111
  {
  }

  // ---------------------------------------------------------------------------
  // Shared pieces

  /** `byte == 1`: any other value reads as false. */
  function Bool(b: byte): bool { b == 1 }

  function BoolCode(x: bool): byte { if x then 1 else 0 }

  function Bytes2(s: seq<byte>): GDResult<Read<(byte, byte)>> {
    var a :- U8(s);
    var b :- U8(a.rest);
    Ok(Read((a.value, b.value), b.rest))
  }

  function Bytes3(s: seq<byte>): GDResult<Read<(byte, byte, byte)>> {
    var a :- U8(s);
    var b :- U8(a.rest);
    var c :- U8(b.rest);
    Ok(Read((a.value, b.value, c.value), c.rest))
  }

  lemma Bytes2RoundTrip(a: byte, b: byte, t: seq<byte>)
    ensures Bytes2([a, b] + t) == Ok(Read((a, b), t))
  {
    assert ([a, b] + t)[1..][1..] == t;
  }

  lemma Bytes3RoundTrip(a: byte, b: byte, c: byte, t: seq<byte>)
    ensures Bytes3([a, b, c] + t) == Ok(Read((a, b, c), t))
  {
    assert ([a, b, c] + t)[1..][1..][1..] == t;
  }

  method ReadBytes2(buffer: Cursor) returns (r: GDResult<(byte, byte)>)
    modifies buffer
    ensures r == ValueOf(Bytes2(old(buffer.Rest())))
    ensures r.Ok? ==> buffer.Rest() == Bytes2(old(buffer.Rest())).value.rest
  {
    var a :- buffer.GetU8();
    var b :- buffer.GetU8();
    r := Ok((a, b));
  }

  method ReadBytes3(buffer: Cursor) returns (r: GDResult<(byte, byte, byte)>)
    modifies buffer
    ensures r == ValueOf(Bytes3(old(buffer.Rest())))
    ensures r.Ok? ==> buffer.Rest() == Bytes3(old(buffer.Rest())).value.rest
  {
    var a :- buffer.GetU8();
    var b :- buffer.GetU8();
    var c :- buffer.GetU8();
    r := Ok((a, b, c));
  }

  /** The name, map, folder and game strings both layouts carry in that order. */
  function Names(s: seq<byte>): GDResult<Read<(seq<byte>, seq<byte>, seq<byte>, seq<byte>)>> {
    var name :- Utf8String(s);
    var mapName :- Utf8String(name.rest);
    var folder :- Utf8String(mapName.rest);
    var game :- Utf8String(folder.rest);
    Ok(Read((name.value, mapName.value, folder.value, game.value), game.rest))
  }

  function EncodeNames(name: seq<byte>, mapName: seq<byte>, folder: seq<byte>, game: seq<byte>): seq<byte> {
    CString(name) + (CString(mapName) + (CString(folder) + CString(game)))
  }

  lemma NamesRoundTrip(name: seq<byte>, mapName: seq<byte>, folder: seq<byte>, game: seq<byte>, t: seq<byte>)
    requires WireString(name) && WireString(mapName) && WireString(folder) && WireString(game)
    ensures Names(EncodeNames(name, mapName, folder, game) + t) == Ok(Read((name, mapName, folder, game), t))
  {
    var t3 := CString(game) + t;
    var t2 := CString(folder) + t3;
    var t1 := CString(mapName) + t2;
    assert EncodeNames(name, mapName, folder, game) + t == CString(name) + t1;
    Utf8StringRoundTrip(name, t1);
    Utf8StringRoundTrip(mapName, t2);
    Utf8StringRoundTrip(folder, t3);
    Utf8StringRoundTrip(game, t);
  }

  method ReadNames(buffer: Cursor) returns (r: GDResult<(seq<byte>, seq<byte>, seq<byte>, seq<byte>)>)
    modifies buffer
    ensures r == ValueOf(Names(old(buffer.Rest())))
    ensures r.Ok? ==> buffer.Rest() == Names(old(buffer.Rest())).value.rest
  {
    var name :- buffer.GetStringUtf8();
    var mapName :- buffer.GetStringUtf8();
    var folder :- buffer.GetStringUtf8();
    var game :- buffer.GetStringUtf8();
    r := Ok((name, mapName, folder, game));
  }

  // ---------------------------------------------------------------------------
  // The obsolete GoldSrc layout

  /** A header byte and the server address, both dropped, then the four names. */
  function LegacyHead(s: seq<byte>): GDResult<Read<(seq<byte>, seq<byte>, seq<byte>, seq<byte>)>> {
    var header :- U8(s);
    var address :- Utf8String(header.rest);
    Names(address.rest)
  }

  /** Server type then environment, each refused with `UnknownEnumCast` before the next byte is read. */
  function LegacyKinds(s: seq<byte>): GDResult<Read<(Server, Environment)>> {
    var typeCode :- U8(s);
    var serverType :- LegacyServerType(typeCode.value);
    var envCode :- U8(typeCode.rest);
    var environmentType :- LegacyEnvironmentType(envCode.value);
    Ok(Read((serverType, environmentType), envCode.rest))
  }

  /** Link, download link, version, size and two flags. */
  function ModFields(s: seq<byte>): GDResult<Read<ModData>> {
    var link :- Utf8String(s);
    var downloadLink :- Utf8String(link.rest);
    var version :- U32(downloadLink.rest);
    var size :- U32(version.rest);
    var flags :- Bytes2(size.rest);
    Ok(Read(ModData(link.value, downloadLink.value, version.value, size.value,
                    Bool(flags.value.0), Bool(flags.value.1)), flags.rest))
  }

  /** Password flag, mod flag, and the mod fields exactly when the mod byte is 1. */
  function LegacyModBlock(s: seq<byte>): (r: GDResult<Read<(bool, bool, Option<ModData>)>>)
    ensures r.Ok? ==> (r.value.value.2.Some? <==> r.value.value.1)
  {
    var hasPassword :- U8(s);
    var isMod :- U8(hasPassword.rest);
    var modData :- Opt(Bool(isMod.value), ModFields(isMod.rest), isMod.rest);
    Ok(Read((Bool(hasPassword.value), Bool(isMod.value), modData.value), modData.rest))
  }

  /**
   * `get_goldsrc_server_info`: the reply has no app id, version, extra data
   * or ship data, and carries mod data exactly when it says it is a mod.
   */
  function DecodeLegacyInfo(s: seq<byte>): (r: GDResult<ServerInfo>)
    ensures r.Ok? ==>
      && r.value.appid == 0 && r.value.version == []
      && r.value.extraData == None && r.value.theShip == None
      && r.value.environmentType != Mac
      && (r.value.modData.Some? <==> r.value.isMod)
  {
    var head :- LegacyHead(s);
    var counts :- Bytes3(head.rest);
    var kinds :- LegacyKinds(counts.rest);
    var modBlock :- LegacyModBlock(kinds.rest);
    var tail :- Bytes2(modBlock.rest);
    var (name, mapName, folder, game) := head.value;
    var (players, maxPlayers, protocol) := counts.value;
    var (hasPassword, isMod, modData) := modBlock.value;
    Ok(ServerInfo(protocol, name, mapName, folder, game, 0, players, maxPlayers, tail.value.1,
                  kinds.value.0, kinds.value.1, hasPassword, Bool(tail.value.0),
                  None, [], None, isMod, modData))
  }

  predicate WireMod(m: ModData) {
    WireString(m.link) && WireString(m.downloadLink)
  }

  /** The records the obsolete layout can carry. */
  predicate LegacyEncodable(info: ServerInfo) {
    && WireString(info.name) && WireString(info.mapName) && WireString(info.folder) && WireString(info.game)
    && info.appid == 0 && info.version == [] && info.extraData == None && info.theShip == None
    && info.environmentType != Mac
    && (info.modData.Some? <==> info.isMod)
    && (info.modData.Some? ==> WireMod(info.modData.value))
  }

  function EncodeMod(m: ModData): seq<byte> {
    CString(m.link) + (CString(m.downloadLink) + (LE32(m.version) + (LE32(m.size)
      + [BoolCode(m.multiplayerOnly), BoolCode(m.hasOwnDll)])))
  }

  lemma ModRoundTrip(m: ModData, t: seq<byte>)
    requires WireMod(m)
    ensures ModFields(EncodeMod(m) + t) == Ok(Read(m, t))
  {
    var t4 := [BoolCode(m.multiplayerOnly), BoolCode(m.hasOwnDll)] + t;
    var t3 := LE32(m.size) + t4;
    var t2 := LE32(m.version) + t3;
    var t1 := CString(m.downloadLink) + t2;
    assert EncodeMod(m) + t == CString(m.link) + t1;
    Utf8StringRoundTrip(m.link, t1);
    Utf8StringRoundTrip(m.downloadLink, t2);
    U32RoundTrip(m.version, t3);
    U32RoundTrip(m.size, t4);
    Bytes2RoundTrip(BoolCode(m.multiplayerOnly), BoolCode(m.hasOwnDll), t);
  }

  function EncodeLegacyModBlock(info: ServerInfo): seq<byte>
    requires info.modData.Some? <==> info.isMod
  {
    [BoolCode(info.hasPassword), BoolCode(info.isMod)]
      + (if info.isMod then EncodeMod(info.modData.value) else [])
  }

  lemma LegacyModBlockRoundTrip(info: ServerInfo, t: seq<byte>)
    requires info.modData.Some? <==> info.isMod
    requires info.modData.Some? ==> WireMod(info.modData.value)
    ensures LegacyModBlock(EncodeLegacyModBlock(info) + t) == Ok(Read((info.hasPassword, info.isMod, info.modData), t))
  {
    var atMod := (if info.isMod then EncodeMod(info.modData.value) else []) + t;
    var s := EncodeLegacyModBlock(info) + t;
    assert s == [BoolCode(info.hasPassword), BoolCode(info.isMod)] + atMod;
    assert U8(s) == Ok(Read(BoolCode(info.hasPassword), s[1..]));
    assert U8(s[1..]) == Ok(Read(BoolCode(info.isMod), atMod));
    if info.isMod {
      ModRoundTrip(info.modData.value, t);
    } else {
      assert atMod == t;
    }
    assert Opt(Bool(BoolCode(info.isMod)), ModFields(atMod), atMod) == Ok(Read(info.modData, t));
  }

  /** The obsolete reply for `info`, after the given header byte and address. */
  function EncodeLegacyInfo(header: byte, address: seq<byte>, info: ServerInfo): seq<byte>
    requires LegacyEncodable(info)
  {
    [header] + (CString(address) + (EncodeNames(info.name, info.mapName, info.folder, info.game)
      + ([info.players, info.maxPlayers, info.protocol]
      + ([LegacyServerCode(info.serverType), LegacyEnvironmentCode(info.environmentType)]
      + (EncodeLegacyModBlock(info) + [BoolCode(info.vacSecured), info.bots])))))
  }

  lemma LegacyInfoRoundTrip(header: byte, address: seq<byte>, info: ServerInfo)
    requires WireString(address) && LegacyEncodable(info)
    ensures DecodeLegacyInfo(EncodeLegacyInfo(header, address, info)) == Ok(info)
  {
    var tail := [BoolCode(info.vacSecured), info.bots];
    var atMod := EncodeLegacyModBlock(info) + tail;
    var atKinds := [LegacyServerCode(info.serverType), LegacyEnvironmentCode(info.environmentType)] + atMod;
    var atCounts := [info.players, info.maxPlayers, info.protocol] + atKinds;
    var atNames := EncodeNames(info.name, info.mapName, info.folder, info.game) + atCounts;
    var s := EncodeLegacyInfo(header, address, info);
    assert s == [header] + (CString(address) + atNames);
    assert s[1..] == CString(address) + atNames;
    Utf8StringRoundTrip(address, atNames);
    NamesRoundTrip(info.name, info.mapName, info.folder, info.game, atCounts);
    assert LegacyHead(s) == Ok(Read((info.name, info.mapName, info.folder, info.game), atCounts));
    Bytes3RoundTrip(info.players, info.maxPlayers, info.protocol, atKinds);
    LegacyTablesBijective(0, info.serverType, info.environmentType);
    assert atKinds[1..][1..] == atMod;
    assert LegacyKinds(atKinds) == Ok(Read((info.serverType, info.environmentType), atMod));
    LegacyModBlockRoundTrip(info, tail);
    Bytes2RoundTrip(BoolCode(info.vacSecured), info.bots, []);
    assert tail + [] == tail;
  }

  method ReadLegacyHead(buffer: Cursor) returns (r: GDResult<(seq<byte>, seq<byte>, seq<byte>, seq<byte>)>)
    modifies buffer
    ensures r == ValueOf(LegacyHead(old(buffer.Rest())))
    ensures r.Ok? ==> buffer.Rest() == LegacyHead(old(buffer.Rest())).value.rest
  {
    var _ :- buffer.GetU8();
    var _ :- buffer.GetStringUtf8();
    r := ReadNames(buffer);
  }

  method ReadLegacyKinds(buffer: Cursor) returns (r: GDResult<(Server, Environment)>)
    modifies buffer
    ensures r == ValueOf(LegacyKinds(old(buffer.Rest())))
    ensures r.Ok? ==> buffer.Rest() == LegacyKinds(old(buffer.Rest())).value.rest
  {
    var typeCode :- buffer.GetU8();
    var serverType :- LegacyServerType(typeCode);
    var envCode :- buffer.GetU8();
    var environmentType :- LegacyEnvironmentType(envCode);
    r := Ok((serverType, environmentType));
  }

  method ReadMod(buffer: Cursor) returns (r: GDResult<ModData>)
    modifies buffer
    ensures r == ValueOf(ModFields(old(buffer.Rest())))
    ensures r.Ok? ==> buffer.Rest() == ModFields(old(buffer.Rest())).value.rest
  {
    var link :- buffer.GetStringUtf8();
    var downloadLink :- buffer.GetStringUtf8();
    var version :- buffer.GetU32();
    var size :- buffer.GetU32();
    var flags :- ReadBytes2(buffer);
    r := Ok(ModData(link, downloadLink, version, size, Bool(flags.0), Bool(flags.1)));
  }

  method ReadLegacyModBlock(buffer: Cursor) returns (r: GDResult<(bool, bool, Option<ModData>)>)
    modifies buffer
    ensures r == ValueOf(LegacyModBlock(old(buffer.Rest())))
    ensures r.Ok? ==> buffer.Rest() == LegacyModBlock(old(buffer.Rest())).value.rest
  {
    var hasPassword :- buffer.GetU8();
    var isMod :- buffer.GetU8();
    var modData := None;
    if Bool(isMod) {
      var m :- ReadMod(buffer);
      modData := Some(m);
    }
    r := Ok((Bool(hasPassword), Bool(isMod), modData));
  }

  /** `get_goldsrc_server_info` on the caller's cursor. */
  method GetGoldSrcServerInfo(buffer: Cursor) returns (r: GDResult<ServerInfo>)
    modifies buffer
    ensures r == DecodeLegacyInfo(old(buffer.Rest()))
  {
    var names :- ReadLegacyHead(buffer);
    var counts :- ReadBytes3(buffer);
    var kinds :- ReadLegacyKinds(buffer);
    var modBlock :- ReadLegacyModBlock(buffer);
    var tail :- ReadBytes2(buffer);
    var (name, mapName, folder, game) := names;
    var (players, maxPlayers, protocol) := counts;
    var (hasPassword, isMod, modData) := modBlock;
    r := Ok(ServerInfo(protocol, name, mapName, folder, game, 0, players, maxPlayers, tail.1,
                       kinds.0, kinds.1, hasPassword, Bool(tail.0),
                       None, [], None, isMod, modData));
  }

  // ---------------------------------------------------------------------------
  // The extra-data block of the current layout

  /** `(flags & mask) > 0` for a one-bit mask. */
  function Flag(flags: byte, mask: nat): bool
    requires mask > 0
  {
    (flags / mask) % 2 == 1
  }

  const PORT_FLAG: nat := 0x80
  const STEAM_ID_FLAG: nat := 0x10
  const TV_FLAG: nat := 0x40
  const KEYWORDS_FLAG: nat := 0x20
  const GAME_ID_FLAG: nat := 0x01

  /** Port, Steam id and TV port, in that order. */
  function ExtraFirst(flags: byte, s: seq<byte>): (r: GDResult<Read<(Option<u16>, Option<u64>, Option<u16>)>>)
    ensures r.Ok? ==>
      && (r.value.value.0.Some? <==> Flag(flags, PORT_FLAG))
      && (r.value.value.1.Some? <==> Flag(flags, STEAM_ID_FLAG))
      && (r.value.value.2.Some? <==> Flag(flags, TV_FLAG))
  {
    var port :- Opt(Flag(flags, PORT_FLAG), U16(s), s);
    var steamId :- Opt(Flag(flags, STEAM_ID_FLAG), U64(port.rest), port.rest);
    var tvPort :- Opt(Flag(flags, TV_FLAG), U16(steamId.rest), steamId.rest);
    Ok(Read((port.value, steamId.value, tvPort.value), tvPort.rest))
  }

  /** TV name, keywords and game id, in that order. */
  function ExtraSecond(flags: byte, s: seq<byte>): (r: GDResult<Read<(Option<seq<byte>>, Option<seq<byte>>, Option<u64>)>>)
    ensures r.Ok? ==>
      && (r.value.value.0.Some? <==> Flag(flags, TV_FLAG))
      && (r.value.value.1.Some? <==> Flag(flags, KEYWORDS_FLAG))
      && (r.value.value.2.Some? <==> Flag(flags, GAME_ID_FLAG))
  {
    var tvName :- Opt(Flag(flags, TV_FLAG), Utf8String(s), s);
    var keywords :- Opt(Flag(flags, KEYWORDS_FLAG), Utf8String(tvName.rest), tvName.rest);
    var gameId :- Opt(Flag(flags, GAME_ID_FLAG), U64(keywords.rest), keywords.rest);
    Ok(Read((tvName.value, keywords.value, gameId.value), gameId.rest))
  }

  /** The fields after the flags byte, each read only when its bit is set. */
  function ExtraFields(flags: byte, s: seq<byte>): (r: GDResult<Read<ExtraData>>)
    ensures r.Ok? ==>
      && (r.value.value.port.Some? <==> Flag(flags, PORT_FLAG))
      && (r.value.value.steamId.Some? <==> Flag(flags, STEAM_ID_FLAG))
      && (r.value.value.tvPort.Some? <==> Flag(flags, TV_FLAG))
      && (r.value.value.tvName.Some? <==> Flag(flags, TV_FLAG))
      && (r.value.value.keywords.Some? <==> Flag(flags, KEYWORDS_FLAG))
      && (r.value.value.gameId.Some? <==> Flag(flags, GAME_ID_FLAG))
  {
    var first :- ExtraFirst(flags, s);
    var second :- ExtraSecond(flags, first.rest);
    Ok(Read(ExtraData(first.value.0, first.value.1, first.value.2,
                      second.value.0, second.value.1, second.value.2), second.rest))
  }

  /**
   * The optional extra-data block: a buffer already exhausted at the flags
   * byte gives no block rather than an error; once the flags byte is there,
   * a flagged field that is cut short is an error.
   */
  function DecodeExtra(s: seq<byte>): (r: GDResult<Read<Option<ExtraData>>>)
    ensures s == [] ==> r == Ok(Read(None, []))
    ensures s != [] && r.Ok? ==> r.value.value.Some?
    ensures s != [] && s[0] == 0 ==> r == Ok(Read(Some(ExtraData(None, None, None, None, None, None)), s[1..]))
  {
    if |s| < 1 then Ok(Read(None, s))
    else
      var fields :- ExtraFields(s[0], s[1..]);
      Ok(Read(Some(fields.value), fields.rest))
  }

  predicate WireExtra(e: ExtraData) {
    && (e.tvPort.Some? <==> e.tvName.Some?)
    && (e.tvName.Some? ==> WireString(e.tvName.value))
    && (e.keywords.Some? ==> WireString(e.keywords.value))
  }

  function Bit(present: bool, mask: nat): nat { if present then mask else 0 }

  /** The flags byte announcing the fields `e` has. */
  function FlagsOf(e: ExtraData): byte {
    Bit(e.port.Some?, PORT_FLAG) + Bit(e.tvPort.Some?, TV_FLAG) + Bit(e.keywords.Some?, KEYWORDS_FLAG)
      + Bit(e.steamId.Some?, STEAM_ID_FLAG) + Bit(e.gameId.Some?, GAME_ID_FLAG)
  }

  function OptLE16(x: Option<u16>): seq<byte> { if x.Some? then LE16(x.value) else [] }
  function OptLE64(x: Option<u64>): seq<byte> { if x.Some? then LE64(x.value) else [] }
  function OptCString(x: Option<seq<byte>>): seq<byte> { if x.Some? then CString(x.value) else [] }

  function EncodeExtraFirst(e: ExtraData): seq<byte> {
    OptLE16(e.port) + (OptLE64(e.steamId) + OptLE16(e.tvPort))
  }

  function EncodeExtraSecond(e: ExtraData): seq<byte> {
    OptCString(e.tvName) + (OptCString(e.keywords) + OptLE64(e.gameId))
  }

  lemma FlagsOfBits(e: ExtraData)
    ensures Flag(FlagsOf(e), PORT_FLAG) <==> e.port.Some?
    ensures Flag(FlagsOf(e), STEAM_ID_FLAG) <==> e.steamId.Some?
    ensures Flag(FlagsOf(e), TV_FLAG) <==> e.tvPort.Some?
    ensures Flag(FlagsOf(e), KEYWORDS_FLAG) <==> e.keywords.Some?
    ensures Flag(FlagsOf(e), GAME_ID_FLAG) <==> e.gameId.Some?
  {
    var high := Bit(e.port.Some?, 8) + Bit(e.tvPort.Some?, 4) + Bit(e.keywords.Some?, 2) + Bit(e.steamId.Some?, 1);
    var low := Bit(e.gameId.Some?, 1);
    assert FlagsOf(e) == 16 * high + low;
    assert FlagsOf(e) / 16 == high;
    assert FlagsOf(e) / 32 == high / 2;
    assert FlagsOf(e) / 64 == high / 4;
    assert FlagsOf(e) / 128 == high / 8;
  }

  lemma OptU16RoundTrip(x: Option<u16>, t: seq<byte>)
    ensures Opt(x.Some?, U16(OptLE16(x) + t), OptLE16(x) + t) == Ok(Read(x, t))
  {
    if x.Some? { U16RoundTrip(x.value, t); } else { assert OptLE16(x) + t == t; }
  }

  lemma OptU64RoundTrip(x: Option<u64>, t: seq<byte>)
    ensures Opt(x.Some?, U64(OptLE64(x) + t), OptLE64(x) + t) == Ok(Read(x, t))
  {
    if x.Some? { U64RoundTrip(x.value, t); } else { assert OptLE64(x) + t == t; }
  }

  lemma OptStringRoundTrip(x: Option<seq<byte>>, t: seq<byte>)
    requires x.Some? ==> WireString(x.value)
    ensures Opt(x.Some?, Utf8String(OptCString(x) + t), OptCString(x) + t) == Ok(Read(x, t))
  {
    if x.Some? { Utf8StringRoundTrip(x.value, t); } else { assert OptCString(x) + t == t; }
  }

  lemma ExtraFirstRoundTrip(e: ExtraData, t: seq<byte>)
    ensures ExtraFirst(FlagsOf(e), EncodeExtraFirst(e) + t) == Ok(Read((e.port, e.steamId, e.tvPort), t))
  {
    var t2 := OptLE16(e.tvPort) + t;
    var t1 := OptLE64(e.steamId) + t2;
    assert EncodeExtraFirst(e) + t == OptLE16(e.port) + t1;
    FlagsOfBits(e);
    OptU16RoundTrip(e.port, t1);
    OptU64RoundTrip(e.steamId, t2);
    OptU16RoundTrip(e.tvPort, t);
  }

  lemma ExtraSecondRoundTrip(e: ExtraData, t: seq<byte>)
    requires WireExtra(e)
    ensures ExtraSecond(FlagsOf(e), EncodeExtraSecond(e) + t) == Ok(Read((e.tvName, e.keywords, e.gameId), t))
  {
    var t2 := OptLE64(e.gameId) + t;
    var t1 := OptCString(e.keywords) + t2;
    assert EncodeExtraSecond(e) + t == OptCString(e.tvName) + t1;
    FlagsOfBits(e);
    OptStringRoundTrip(e.tvName, t1);
    OptStringRoundTrip(e.keywords, t2);
    OptU64RoundTrip(e.gameId, t);
  }

  /** The flags byte and the flagged fields, decoded back in wire order. */
  function EncodeExtra(extra: Option<ExtraData>): seq<byte> {
    if extra.Some? then [FlagsOf(extra.value)] + (EncodeExtraFirst(extra.value) + EncodeExtraSecond(extra.value))
    else []
  }

  lemma ExtraRoundTrip(extra: Option<ExtraData>, t: seq<byte>)
    requires extra.Some? ==> WireExtra(extra.value)
    requires extra.None? ==> t == []
    ensures DecodeExtra(EncodeExtra(extra) + t) == Ok(Read(extra, t))
  {
    if extra.Some? {
      ExtraSomeRoundTrip(extra.value, t);
    } else {
      assert EncodeExtra(extra) + t == [];
    }
  }

  lemma ExtraSomeRoundTrip(e: ExtraData, t: seq<byte>)
    requires WireExtra(e)
    ensures DecodeExtra(EncodeExtra(Some(e)) + t) == Ok(Read(Some(e), t))
  {
    var fields := EncodeExtraFirst(e) + (EncodeExtraSecond(e) + t);
    assert EncodeExtra(Some(e)) + t == [FlagsOf(e)] + fields;
    ExtraFieldsRoundTrip(e, t);
    DecodeExtraPresent(FlagsOf(e), fields, e, t);
  }

  lemma DecodeExtraPresent(flags: byte, fields: seq<byte>, e: ExtraData, t: seq<byte>)
    requires ExtraFields(flags, fields) == Ok(Read(e, t))
    ensures DecodeExtra([flags] + fields) == Ok(Read(Some(e), t))
  {
    assert ([flags] + fields)[1..] == fields;
  }

  lemma ExtraFieldsRoundTrip(e: ExtraData, t: seq<byte>)
    requires WireExtra(e)
    ensures ExtraFields(FlagsOf(e), EncodeExtraFirst(e) + (EncodeExtraSecond(e) + t)) == Ok(Read(e, t))
  {
    ExtraFirstRoundTrip(e, EncodeExtraSecond(e) + t);
    ExtraSecondRoundTrip(e, t);
  }

  method ReadExtraFirst(flags: byte, buffer: Cursor) returns (r: GDResult<(Option<u16>, Option<u64>, Option<u16>)>)
    modifies buffer
    ensures r == ValueOf(ExtraFirst(flags, old(buffer.Rest())))
    ensures r.Ok? ==> buffer.Rest() == ExtraFirst(flags, old(buffer.Rest())).value.rest
  {
    var port := None;
    if Flag(flags, PORT_FLAG) {
      var x :- buffer.GetU16();
      port := Some(x);
    }
    var steamId := None;
    if Flag(flags, STEAM_ID_FLAG) {
      var x :- buffer.GetU64();
      steamId := Some(x);
    }
    var tvPort := None;
    if Flag(flags, TV_FLAG) {
      var x :- buffer.GetU16();
      tvPort := Some(x);
    }
    r := Ok((port, steamId, tvPort));
  }

  method ReadExtraSecond(flags: byte, buffer: Cursor) returns (r: GDResult<(Option<seq<byte>>, Option<seq<byte>>, Option<u64>)>)
    modifies buffer
    ensures r == ValueOf(ExtraSecond(flags, old(buffer.Rest())))
    ensures r.Ok? ==> buffer.Rest() == ExtraSecond(flags, old(buffer.Rest())).value.rest
  {
    var tvName := None;
    if Flag(flags, TV_FLAG) {
      var x :- buffer.GetStringUtf8();
      tvName := Some(x);
    }
    var keywords := None;
    if Flag(flags, KEYWORDS_FLAG) {
      var x :- buffer.GetStringUtf8();
      keywords := Some(x);
    }
    var gameId := None;
    if Flag(flags, GAME_ID_FLAG) {
      var x :- buffer.GetU64();
      gameId := Some(x);
    }
    r := Ok((tvName, keywords, gameId));
  }

  /** The `match buffer.get_u8()` of the source: a failed flags read yields no block, not an error. */
  method ReadExtra(buffer: Cursor) returns (r: GDResult<Option<ExtraData>>)
    modifies buffer
    ensures r == ValueOf(DecodeExtra(old(buffer.Rest())))
  {
    var flags := buffer.GetU8();
    if flags.Err? {
      return Ok(None);
    }
    var first :- ReadExtraFirst(flags.value, buffer);
    var second :- ReadExtraSecond(flags.value, buffer);
    r := Ok(Some(ExtraData(first.0, first.1, first.2, second.0, second.1, second.2)));
  }

  // ---------------------------------------------------------------------------
  // The current layout

  /** Protocol version, the four names, and the 16-bit app id. */
  function InfoHead(s: seq<byte>): GDResult<Read<(byte, (seq<byte>, seq<byte>, seq<byte>, seq<byte>), u16)>> {
    var protocol :- U8(s);
    var names :- Names(protocol.rest);
    var appid :- U16(names.rest);
    Ok(Read((protocol.value, names.value, appid.value), appid.rest))
  }

  function Kinds(s: seq<byte>): GDResult<Read<(Server, Environment)>> {
    var typeCode :- U8(s);
    var serverType :- ServerType(typeCode.value);
    var envCode :- U8(typeCode.rest);
    var environmentType :- EnvironmentType(envCode.value);
    Ok(Read((serverType, environmentType), envCode.rest))
  }

  /** Mode, witnesses and duration of The Ship. */
  function ShipFields(s: seq<byte>): GDResult<Read<TheShip>> {
    var b :- Bytes3(s);
    Ok(Read(TheShip(b.value.0, b.value.1, b.value.2), b.rest))
  }

  /** Ship data for The Ship only, the version string, then the extra-data block. */
  function InfoTail(app: App, s: seq<byte>): (r: GDResult<Read<(Option<TheShip>, seq<byte>, Option<ExtraData>)>>)
    ensures r.Ok? ==> (r.value.value.0.Some? <==> app == TS)
  {
    var theShip :- Opt(app == TS, ShipFields(s), s);
    var version :- Utf8String(theShip.rest);
    var extra :- DecodeExtra(version.rest);
    Ok(Read((theShip.value, version.value, extra.value), extra.rest))
  }

  /** The low 24 bits of a game id, which replace the app id when the id is sent. */
  function GameIdAppId(gid: u64): (r: u32)
    ensures r < 0x100_0000 && (gid - r) % 0x100_0000 == 0
  {
    gid % 0x100_0000
  }

  /** The app id reported: the low 24 bits of the game id when there is one, else the 16-bit field. */
  function FinalAppId(field: u16, extra: Option<ExtraData>): u32 {
    if extra.Some? && extra.value.gameId.Some? then GameIdAppId(extra.value.gameId.value) else field
  }

  /** The body of `get_server_info` for the current layout. */
  function DecodeInfo(app: App, s: seq<byte>): (r: GDResult<ServerInfo>)
    ensures r.Ok? ==>
      && !r.value.isMod && r.value.modData == None
      && (r.value.theShip.Some? <==> app == TS)
    ensures r.Ok? && r.value.extraData.Some? && r.value.extraData.value.gameId.Some? ==>
      r.value.appid == GameIdAppId(r.value.extraData.value.gameId.value)
    ensures r.Ok? && !(r.value.extraData.Some? && r.value.extraData.value.gameId.Some?) ==>
      InfoHead(s).Ok? && r.value.appid == InfoHead(s).value.value.2
  {
    var head :- InfoHead(s);
    var counts :- Bytes3(head.rest);
    var kinds :- Kinds(counts.rest);
    var flags :- Bytes2(kinds.rest);
    var tail :- InfoTail(app, flags.rest);
    var (protocol, names, appid) := head.value;
    var (name, mapName, folder, game) := names;
    var (players, maxPlayers, bots) := counts.value;
    var (theShip, version, extra) := tail.value;
    Ok(ServerInfo(protocol, name, mapName, folder, game, FinalAppId(appid, extra),
                  players, maxPlayers, bots, kinds.value.0, kinds.value.1,
                  Bool(flags.value.0), Bool(flags.value.1), theShip, version, extra, false, None))
  }

  /** The records the current layout can carry for `app`. */
  predicate Encodable(app: App, info: ServerInfo) {
    && WireString(info.name) && WireString(info.mapName) && WireString(info.folder) && WireString(info.game)
    && WireString(info.version)
    && !info.isMod && info.modData == None
    && (info.theShip.Some? <==> app == TS)
    && (info.extraData.Some? ==> WireExtra(info.extraData.value))
    && (if info.extraData.Some? && info.extraData.value.gameId.Some?
        then info.appid == GameIdAppId(info.extraData.value.gameId.value)
        else info.appid < 0x1_0000)
  }

  /** The 16-bit app-id field: the app id itself, or 0 when the game id overrides it. */
  function AppIdField(info: ServerInfo): u16
    requires (info.extraData.Some? && info.extraData.value.gameId.Some?) || info.appid < 0x1_0000
  {
    if info.extraData.Some? && info.extraData.value.gameId.Some? then 0 else info.appid
  }

  function EncodeShip(ship: Option<TheShip>): seq<byte> {
    if ship.Some? then [ship.value.mode, ship.value.witnesses, ship.value.duration] else []
  }

  function EncodeInfo(app: App, info: ServerInfo): seq<byte>
    requires Encodable(app, info)
  {
    [info.protocol] + (EncodeNames(info.name, info.mapName, info.folder, info.game)
      + (LE16(AppIdField(info))
      + ([info.players, info.maxPlayers, info.bots]
      + ([ServerCode(info.serverType), EnvironmentCode(info.environmentType)]
      + ([BoolCode(info.hasPassword), BoolCode(info.vacSecured)]
      + (EncodeShip(info.theShip) + (CString(info.version) + EncodeExtra(info.extraData))))))))
  }

  lemma ShipRoundTrip(ship: Option<TheShip>, t: seq<byte>)
    ensures Opt(ship.Some?, ShipFields(EncodeShip(ship) + t), EncodeShip(ship) + t) == Ok(Read(ship, t))
  {
    if ship.Some? {
      Bytes3RoundTrip(ship.value.mode, ship.value.witnesses, ship.value.duration, t);
    } else {
      assert EncodeShip(ship) + t == t;
    }
  }

  lemma InfoTailRoundTrip(app: App, info: ServerInfo)
    requires Encodable(app, info)
    ensures InfoTail(app, EncodeShip(info.theShip) + (CString(info.version) + EncodeExtra(info.extraData)))
         == Ok(Read((info.theShip, info.version, info.extraData), []))
  {
    var atExtra := EncodeExtra(info.extraData);
    var atVersion := CString(info.version) + atExtra;
    ShipRoundTrip(info.theShip, atVersion);
    Utf8StringRoundTrip(info.version, atExtra);
    ExtraRoundTrip(info.extraData, []);
    assert atExtra + [] == atExtra;
  }

  lemma InfoRoundTrip(app: App, info: ServerInfo)
    requires Encodable(app, info)
    ensures DecodeInfo(app, EncodeInfo(app, info)) == Ok(info)
  {
    var atShip := EncodeShip(info.theShip) + (CString(info.version) + EncodeExtra(info.extraData));
    var atFlags := [BoolCode(info.hasPassword), BoolCode(info.vacSecured)] + atShip;
    var atKinds := [ServerCode(info.serverType), EnvironmentCode(info.environmentType)] + atFlags;
    var atCounts := [info.players, info.maxPlayers, info.bots] + atKinds;
    var atAppId := LE16(AppIdField(info)) + atCounts;
    var atNames := EncodeNames(info.name, info.mapName, info.folder, info.game) + atAppId;
    var s := EncodeInfo(app, info);
    assert s == [info.protocol] + atNames;
    NamesRoundTrip(info.name, info.mapName, info.folder, info.game, atAppId);
    U16RoundTrip(AppIdField(info), atCounts);
    assert InfoHead(s) == Ok(Read((info.protocol, (info.name, info.mapName, info.folder, info.game), AppIdField(info)), atCounts));
    Bytes3RoundTrip(info.players, info.maxPlayers, info.bots, atKinds);
    TablesBijective(0, info.serverType, info.environmentType);
    assert atKinds[1..][1..] == atFlags;
    assert Kinds(atKinds) == Ok(Read((info.serverType, info.environmentType), atFlags));
    Bytes2RoundTrip(BoolCode(info.hasPassword), BoolCode(info.vacSecured), atShip);
    InfoTailRoundTrip(app, info);
  }

  method ReadInfoHead(buffer: Cursor) returns (r: GDResult<(byte, (seq<byte>, seq<byte>, seq<byte>, seq<byte>), u16)>)
    modifies buffer
    ensures r == ValueOf(InfoHead(old(buffer.Rest())))
    ensures r.Ok? ==> buffer.Rest() == InfoHead(old(buffer.Rest())).value.rest
  {
    var protocol :- buffer.GetU8();
    var names :- ReadNames(buffer);
    var appid :- buffer.GetU16();
    r := Ok((protocol, names, appid));
  }

  method ReadKinds(buffer: Cursor) returns (r: GDResult<(Server, Environment)>)
    modifies buffer
    ensures r == ValueOf(Kinds(old(buffer.Rest())))
    ensures r.Ok? ==> buffer.Rest() == Kinds(old(buffer.Rest())).value.rest
  {
    var typeCode :- buffer.GetU8();
    var serverType :- ServerType(typeCode);
    var envCode :- buffer.GetU8();
    var environmentType :- EnvironmentType(envCode);
    r := Ok((serverType, environmentType));
  }

  method ReadInfoTail(app: App, buffer: Cursor) returns (r: GDResult<(Option<TheShip>, seq<byte>, Option<ExtraData>)>)
    modifies buffer
    ensures r == ValueOf(InfoTail(app, old(buffer.Rest())))
  {
    var theShip := None;
    if app == TS {
      var ship :- ReadBytes3(buffer);
      theShip := Some(TheShip(ship.0, ship.1, ship.2));
    }
    var version :- buffer.GetStringUtf8();
    var extra :- ReadExtra(buffer);
    r := Ok((theShip, version, extra));
  }

  /** The current layout on the caller's cursor; `appid` is overwritten when a game id is read. */
  method ReadCurrentInfo(app: App, buffer: Cursor) returns (r: GDResult<ServerInfo>)
    modifies buffer
    ensures r == DecodeInfo(app, old(buffer.Rest()))
  {
    var head :- ReadInfoHead(buffer);
    var (protocol, names, appid16) := head;
    var appid: u32 := appid16;
    var counts :- ReadBytes3(buffer);
    var kinds :- ReadKinds(buffer);
    var flags :- ReadBytes2(buffer);
    var tail :- ReadInfoTail(app, buffer);
    var (theShip, version, extra) := tail;
    if extra.Some? && extra.value.gameId.Some? {
      appid := GameIdAppId(extra.value.gameId.value);
    }
    var (name, mapName, folder, game) := names;
    var (players, maxPlayers, bots) := counts;
    r := Ok(ServerInfo(protocol, name, mapName, folder, game, appid, players, maxPlayers, bots,
                       kinds.0, kinds.1, Bool(flags.0), Bool(flags.1), theShip, version, extra, false, None));
  }

  /** Which layout a reply is parsed with: the obsolete one only for `GoldSrc(true)`. */
  function InfoOf(app: App, s: seq<byte>): GDResult<ServerInfo> {
    if app == GoldSrc(true) then DecodeLegacyInfo(s) else DecodeInfo(app, s)
  }

  /** The parsing half of `get_server_info`, on a fresh cursor over the reply payload. */
  method ParseServerInfo(app: App, data: seq<byte>) returns (r: GDResult<ServerInfo>)
    ensures r == InfoOf(app, data)
  {
    var buffer := new Cursor(data);
    if app.GoldSrc? && app.force {
      r := GetGoldSrcServerInfo(buffer);
      return;
    }
    r := ReadCurrentInfo(app, buffer);
  }
}
