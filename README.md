# Valve server query engine, modelled in Dafny

This project models the client side of the Valve "Server Query" protocol (A2S)
as rust-gamedig implements it in `src/protocols/valve/protocol.rs`. It also
models the socket timeout settings in `src/protocols/types.rs`. The model
covers the following:

- **Packets.** A packet is a 4-byte header, a kind byte and a payload.
  Requests always carry the all-ones header. An INFO request carries the
  "Source Engine Query" preamble. PLAYERS and RULES requests carry four 0xFF
  bytes until the server has sent a challenge.
- **Split replies.** A datagram whose first byte is 0xFE is the first fragment
  of a split reply. A GoldSrc fragment packs `total` and `number` into the two
  nibbles of one byte. A Source fragment carries `total`, `number` and a
  16-bit `size`. The `size` field is absent, and taken as 1248, for
  Counter-Strike: Source (app 240) at protocol 7. When bit 31 of the fragment
  id is set, the fragment also carries the decompressed size and a CRC-32.
  `receive` takes the further fragments `for _ in 1..total` and appends their
  payloads in arrival order. It never looks at `number`. It then checks and
  decompresses the result and decodes it as one packet. The model's `receive`
  applies the corrected integrity check of the "Findings" section, not the
  check as written.
- **The challenge handshake.** `get_request_data` sends the initial request.
  When the reply has kind `'A'` (0x41), it sends one more request that echoes
  the challenge. INFO repeats its preamble before the challenge.
- **Server info.** INFO is always requested with protocol 0 (`protocol.rs:261`).
  Its reply is parsed in one of two layouts. The obsolete layout (`get_goldsrc_server_info`)
  is used exactly for `GoldSrc(true)`, and the current layout for every other
  app. The current layout has:
  - separate server-type and environment code tables;
  - the three extra fields of The Ship (app 2400);
  - the optional extra-data block, whose fields each appear only when their
    bit is set in the flags byte. When the game id is present, its low 24 bits
    replace the app id.
- **Player and rule lists.** Each list is a count followed by exactly that many
  entries. A player entry has a skipped index byte, a name, a score and a
  duration. For The Ship it also has deaths and money. A rule entry is a name
  and a value.
- **`get_response` and `query`.** A response is info, then players and rules
  as the gathering settings ask. When the caller expected a Source app id
  different from the one reported, the query fails with `BadGame` and sends
  no further request.
- **`TimeoutSettings`.** `new` refuses a zero read or write duration. `default`
  gives four seconds each way.

The model is layered the way the source is:

- **Decoders.** Every wire decoder is a pure function on the bytes in front of
  the cursor. Its imperative twin is a method on a `Cursor` object (the
  `&mut Bufferer` the Rust code passes around), proved equal to the function.
  Each decoder has an encoder as its partner, with a round-trip lemma, and
  for split fragments also the inverse direction.
- **Exchanges.** The conversation with the server is a pure function of the
  socket's state (module `ValveExchange`). That state is the datagrams still
  to arrive, in order, and the log of datagrams sent.
- **Classes.** The classes `UdpSocket` and `ValveProtocol` (module
  `ValveClient`) are the imperative client. Each of their methods is proved to
  leave the socket in the state, and return the result, that the matching
  exchange function gives.

The byte cursor (`crate::bufferer`), the socket (`crate::socket`) and the
value types (`crate::protocols::valve::types`) are not part of this model.
Module `Bufferer` models only the contract `protocol.rs` relies on:

- little-endian reads;
- NUL-terminated UTF-8 strings;
- relative moves;
- "the data in front of the position".

`UdpSocket` is a scripted socket. Module `ValveTypes` carries the fields
`protocol.rs` reads and builds. The request codes 0x55 (PLAYERS) and 0x56
(RULES) are the A2S values. 0x54 (INFO) is confirmed by `protocol.rs:33`.
The app ids 240 and 2400 are those `SteamID::CSS` and `SteamID::TS` stand for.

`GoldSrc(false)` parses the reply in the current layout; only `GoldSrc(true)`
uses the obsolete one (`protocol.rs:264-268`).

## Model

| member | source | states |
|---|---|---|
| ValvePacket.DecodePacket | src/protocols/valve/protocol.rs:18-24 | `Packet::new` succeeds exactly when at least five bytes are there; the header is the little-endian value of the first four, the kind is the fifth byte, the payload is everything after; a short buffer is a `PacketUnderflow` |
| ValvePacket.NewPacket | src/protocols/valve/protocol.rs:18-24 | reading a packet from a cursor gives `DecodePacket` of the bytes in front of it |
| ValvePacket.Initial | src/protocols/valve/protocol.rs:42-51 | an initial request has the all-ones header and the request's kind byte; for INFO the payload is 20 bytes, a NUL-terminated text with no NUL before the end, and for PLAYERS and RULES it is four 0xFF bytes |
| ValvePacket.Challenge | src/protocols/valve/protocol.rs:26-40 | a challenge request has the all-ones header and the request's kind byte, and its payload ends with the challenge, preceded by the INFO preamble for INFO and by nothing otherwise |
| ValvePacket.ToBytes | src/protocols/valve/protocol.rs:53-60 | the wire form is five bytes longer than the payload: the header big-endian, then the kind byte, then the payload unchanged |
| ValvePacket.InitialWire | src/protocols/valve/protocol.rs:42-60 | the initial request for a kind is sent as `FF FF FF FF`, the kind byte, then the INFO preamble (INFO) or `FF FF FF FF` (PLAYERS, RULES) |
| ValvePacket.ChallengeShape | src/protocols/valve/protocol.rs:26-40 | a challenge request keeps the initial header and kind; for INFO the payload is the preamble followed by the challenge, for the other kinds the challenge alone |
| ValvePacket.PacketRoundTrip | src/protocols/valve/protocol.rs:53-60 | decoding `to_bytes` of any packet gives back its kind and payload, and its header byte-swapped (written big-endian, read little-endian) |
| ValvePacket.AllOnesRoundTrip | src/protocols/valve/protocol.rs:44 | with the all-ones header, decoding `to_bytes` gives back the packet unchanged |
| ValvePacket.RequestsRoundTrip | src/protocols/valve/protocol.rs:26-51 | every initial and challenge request the client builds decodes back to itself |
| ValvePacket.LowerUpper | src/protocols/valve/protocol.rs:85 | `u8_lower_upper` splits a byte into its low and high nibble, which recombine to it |
| ValvePacket.IntegrityWords | src/protocols/valve/protocol.rs:95-99 | the decompressed size and the CRC are both present exactly when the fragment is compressed |
| ValvePacket.ReadIntegrityWords | src/protocols/valve/protocol.rs:96-99 | the cursor method reads the two words exactly as `IntegrityWords` says and leaves the cursor where it says |
| ValvePacket.DecodeSplit | src/protocols/valve/protocol.rs:78-115 | every fragment `SplitPacket::new` accepts carries both integrity words when it is compressed, so `get_payload`'s `unwrap`s cannot fail |
| ValvePacket.NewSplitPacket | src/protocols/valve/protocol.rs:78-115 | reading a fragment from a cursor gives `DecodeSplit` of the bytes in front of it |
| ValvePacket.ReadGoldSrcFragment | src/protocols/valve/protocol.rs:84-87 | the GoldSrc branch on a cursor equals its pure decoder |
| ValvePacket.ReadSourceFragment | src/protocols/valve/protocol.rs:88-101 | the Source branch on a cursor, including the skipped size field for CSS at protocol 7, equals its pure decoder |
| ValvePacket.Bit31OfBytes | src/protocols/valve/protocol.rs:95 | the compression bit of a little-endian id is the top bit of its last byte |
| ValvePacket.SplitGoldSrcLayout | src/protocols/valve/protocol.rs:84-87 | a GoldSrc fragment decodes exactly when it has nine bytes: header, id, `total` = low nibble and `number` = high nibble of byte 8, size 0, uncompressed, no integrity words, payload from byte 9; otherwise `PacketUnderflow` |
| ValvePacket.SplitSourceLayout | src/protocols/valve/protocol.rs:88-101 | a Source fragment decodes exactly when its fixed part is there; it states each field's bytes, the 1248 size for CSS at protocol 7 with no bytes consumed, compression iff the top bit of byte 7, the size and CRC words exactly when compressed, and where the payload starts |
| ValvePacket.SplitRoundTrip | src/protocols/valve/protocol.rs:78-115 | every well-formed fragment encodes to bytes that decode back to it |
| ValvePacket.SplitInverse | src/protocols/valve/protocol.rs:78-115 | every decoded fragment is well formed and re-encodes to exactly the bytes it was read from |
| ValvePacket.Payload | src/protocols/valve/protocol.rs:117-139 | an uncompressed fragment yields its payload; a compressed one succeeds exactly when the decoder succeeds and its output has the declared length and CRC-32, and then yields that output; every failure is `Decompress` (corrected reading, see Findings) |
| ValvePacket.PayloadAsWritten | src/protocols/valve/protocol.rs:117-139 | the code as written: an uncompressed fragment yields its payload; a compressed one can succeed only with a declared size of zero and then yields nothing; every failure is `Decompress` |
| ValvePacket.Crc32OfA | src/protocols/valve/protocol.rs:130 | the CRC-32 that stands for `crc32fast::hash` gives the published value 0xE8B7BE43 for the text "a" |
| ValvePacket.AsWrittenRejectsCompressed | src/protocols/valve/protocol.rs:122-127 | as written, every compressed fragment with a declared size above zero is refused |
| ValvePacket.AsWrittenCounterexample | src/protocols/valve/protocol.rs:124-134 | a concrete compressed fragment that the corrected check accepts and the code as written refuses with the size mismatch |
| ValveInfo.LegacyServerType | src/protocols/valve/protocol.rs:210-215 | the obsolete server type accepts exactly 'D', 'L', 'P' and refuses anything else with `UnknownEnumCast` |
| ValveInfo.LegacyEnvironmentType | src/protocols/valve/protocol.rs:216-220 | the obsolete environment accepts exactly 'L' and 'W', never yields Mac, and refuses anything else with `UnknownEnumCast` |
| ValveInfo.ServerType | src/protocols/valve/protocol.rs:279-284 | the current server type accepts exactly 'd', 'l', 'p' and refuses anything else with `UnknownEnumCast` |
| ValveInfo.EnvironmentType | src/protocols/valve/protocol.rs:285-290 | the current environment accepts exactly 'l', 'w', 'm', 'o' and refuses anything else with `UnknownEnumCast` |
| ValveInfo.LegacyTablesBijective | src/protocols/valve/protocol.rs:210-220 | the obsolete code tables are bijections between the accepted bytes and the variants |
| ValveInfo.TablesBijective | src/protocols/valve/protocol.rs:279-290 | the current code tables are bijections, with 'o' as a second spelling of Mac |
| ValveInfo.LegacyModBlock | src/protocols/valve/protocol.rs:221-233 | mod data is present exactly when the mod byte is 1 |
| ValveInfo.ReadMod | src/protocols/valve/protocol.rs:225-232 | the mod fields read from a cursor equal their pure decoder |
| ValveInfo.ReadLegacyModBlock | src/protocols/valve/protocol.rs:221-233 | the password flag, the mod flag and the conditional mod data read from a cursor equal their pure decoder |
| ValveInfo.DecodeLegacyInfo | src/protocols/valve/protocol.rs:200-257 | an obsolete reply yields app id 0, an empty version, no extra or ship data, a non-Mac environment, and mod data exactly when it is a mod |
| ValveInfo.GetGoldSrcServerInfo | src/protocols/valve/protocol.rs:200-257 | `get_goldsrc_server_info` on a cursor gives `DecodeLegacyInfo` of the bytes in front of it |
| ValveInfo.LegacyInfoRoundTrip | src/protocols/valve/protocol.rs:200-257 | every record the obsolete layout can carry, written with any header byte and address, reads back unchanged |
| ValveInfo.ExtraFirst | src/protocols/valve/protocol.rs:305-316 | port, Steam id and TV port are present exactly when bits 0x80, 0x10, 0x40 are set |
| ValveInfo.ExtraSecond | src/protocols/valve/protocol.rs:317-333 | TV name, keywords and game id are present exactly when bits 0x40, 0x20, 0x01 are set |
| ValveInfo.ExtraFields | src/protocols/valve/protocol.rs:302-335 | each of the six extra fields is present exactly when its flag bit is set |
| ValveInfo.DecodeExtra | src/protocols/valve/protocol.rs:302-303 | a buffer exhausted at the flags byte gives no block and no error; once the flags byte is read the block is present; a zero flags byte gives an empty block |
| ValveInfo.ReadExtraFirst | src/protocols/valve/protocol.rs:305-316 | the cursor method reads the first three flagged fields exactly as `ExtraFirst` |
| ValveInfo.ReadExtraSecond | src/protocols/valve/protocol.rs:317-333 | the cursor method reads the last three flagged fields exactly as `ExtraSecond` |
| ValveInfo.ReadExtra | src/protocols/valve/protocol.rs:302-335 | the `match buffer.get_u8()` on a cursor equals `DecodeExtra`, a failed flags read included |
| ValveInfo.FlagsOfBits | src/protocols/valve/protocol.rs:305-325 | the flags byte built for a block sets each of the five masks exactly when its field is present |
| ValveInfo.ExtraRoundTrip | src/protocols/valve/protocol.rs:302-335 | every extra-data block (or its absence at the end of the reply) reads back unchanged |
| ValveInfo.GameIdAppId | src/protocols/valve/protocol.rs:329 | the app id taken from a game id is below 2^24 and agrees with the game id modulo 2^24 |
| ValveInfo.InfoTail | src/protocols/valve/protocol.rs:293-300 | ship data is read exactly for The Ship |
| ValveInfo.ReadInfoTail | src/protocols/valve/protocol.rs:293-335 | ship data, version and extra block read from a cursor equal `InfoTail` |
| ValveInfo.DecodeInfo | src/protocols/valve/protocol.rs:270-357 | a current reply is never a mod, has ship data exactly for The Ship, and reports the game id's low 24 bits as app id when a game id is present, else the 16-bit app id field read after the four strings |
| ValveInfo.ReadCurrentInfo | src/protocols/valve/protocol.rs:270-357 | the current layout read from a cursor, with `appid` overwritten by the game id, equals `DecodeInfo` |
| ValveInfo.InfoRoundTrip | src/protocols/valve/protocol.rs:270-357 | every record the current layout can carry for an app reads back unchanged |
| ValveInfo.ParseServerInfo | src/protocols/valve/protocol.rs:262-268 | the reply is parsed in the obsolete layout exactly for `GoldSrc(true)` and in the current one otherwise |
| ValveLists.Entries | src/protocols/valve/protocol.rs:367-382 | a list read for a count of `n` has exactly `n` entries |
| ValveLists.EntriesStep | src/protocols/valve/protocol.rs:367-382 | one more turn of a counted loop appends the next entry, or fails with that entry's error |
| ValveLists.EntriesFailurePersists | src/protocols/valve/protocol.rs:367-382 | once an entry fails the whole list fails with that error: a list is all or nothing |
| ValveLists.EntriesAll | src/protocols/valve/protocol.rs:367-382 | a property every successfully read entry has holds of every element of the list |
| ValveLists.EntriesRoundTrip | src/protocols/valve/protocol.rs:395-400 | when entries read back what the encoder writes, so does a whole list of them |
| ValveLists.PlayerShip | src/protocols/valve/protocol.rs:373-380 | deaths and money are read exactly for The Ship |
| ValveLists.PlayerEntry | src/protocols/valve/protocol.rs:368-381 | every player read has deaths and money exactly when the game is The Ship |
| ValveLists.PlayersShape | src/protocols/valve/protocol.rs:367-382 | every player of a list read has deaths and money exactly when the game is The Ship |
| ValveLists.DecodePlayers | src/protocols/valve/protocol.rs:364-384 | a player reply yields exactly as many players as its count byte says, each shaped for the game; an empty reply underflows |
| ValveLists.PlayerRoundTrip | src/protocols/valve/protocol.rs:368-381 | every player the list can carry for an app reads back unchanged, the index byte skipped |
| ValveLists.PlayersRoundTrip | src/protocols/valve/protocol.rs:364-384 | every list of up to 255 such players reads back unchanged |
| ValveLists.ReadPlayerHead | src/protocols/valve/protocol.rs:368-372 | skipping the index byte and reading name, score and duration equals the pure decoder |
| ValveLists.ReadPlayer | src/protocols/valve/protocol.rs:368-381 | one player read from a cursor equals `PlayerEntry` |
| ValveLists.ReadPlayers | src/protocols/valve/protocol.rs:367-382 | the loop reading `count` players equals `Entries` over the player reader |
| ValveLists.ParsePlayers | src/protocols/valve/protocol.rs:362-384 | the parsing half of `get_server_players` equals `DecodePlayers` |
| ValveLists.DecodeRules | src/protocols/valve/protocol.rs:392-402 | a rule reply yields `Some` of exactly as many rules as its 16-bit little-endian count says; fewer than two bytes underflow |
| ValveLists.RuleRoundTrip | src/protocols/valve/protocol.rs:396-399 | every rule with NUL-free UTF-8 name and value reads back unchanged |
| ValveLists.RulesRoundTrip | src/protocols/valve/protocol.rs:392-402 | every list of up to 65535 such rules reads back unchanged, as `Some` |
| ValveLists.ReadRule | src/protocols/valve/protocol.rs:396-399 | one rule read from a cursor equals `RuleEntry` |
| ValveLists.ReadRules | src/protocols/valve/protocol.rs:395-400 | the loop reading `count` rules equals `Entries` over `RuleEntry` |
| ValveLists.ParseRules | src/protocols/valve/protocol.rs:390-402 | the parsing half of `get_server_rules` equals `DecodeRules` |
| ValveExchange.Datagram | src/protocols/valve/protocol.rs:159 | a receive takes the next datagram, or fails and takes nothing when none arrives; nothing is sent |
| ValveExchange.Gather | src/protocols/valve/protocol.rs:167-172 | gathering only ever takes datagrams from the front, and on success takes exactly the `n` it was asked for |
| ValveExchange.GatherInArrivalOrder | src/protocols/valve/protocol.rs:167-172 | gathering `n` fragments succeeds exactly when the next `n` datagrams are there and all are fragments, and then yields their payloads concatenated in arrival order |
| ValveExchange.Reassemble | src/protocols/valve/protocol.rs:167-175 | the rest of a split reply sends nothing and takes datagrams only from the front |
| ValveExchange.ReceiveExchange | src/protocols/valve/protocol.rs:158-180 | `receive` sends nothing, takes datagrams only from the front, and takes at least one when one is there |
| ValveExchange.ReassemblyInArrivalOrder | src/protocols/valve/protocol.rs:164-176 | a split reply whose first fragment declares `total` takes exactly `max(total, 1)` datagrams when they are all fragments, and decodes the integrity-checked concatenation of their payloads in arrival order; with any of them missing or not a fragment, the receive fails |
| ValveExchange.ReceiveUnsplit | src/protocols/valve/protocol.rs:158-179 | a datagram that is not split is decoded alone; an empty datagram underflows at the peek; an empty inbox fails without taking anything |
| ValveExchange.RequestExchange | src/protocols/valve/protocol.rs:183-198 | a request sends one or two datagrams after those already sent, the first of them the initial request for its kind |
| ValveExchange.Handshake | src/protocols/valve/protocol.rs:183-198 | a reply that is not a challenge is returned after exactly one request; a challenge costs exactly one more request, echoing it, and the second reply's payload or error is returned with the network state that reply leaves |
| ValveExchange.InfoExchange | src/protocols/valve/protocol.rs:260-268 | `get_server_info` sends one or two datagrams and keeps the log before them |
| ValveExchange.PlayersExchange | src/protocols/valve/protocol.rs:360-364 | `get_server_players` sends one or two datagrams and keeps the log before them |
| ValveExchange.RulesExchange | src/protocols/valve/protocol.rs:388-402 | `get_server_rules` sends one or two datagrams, keeps the log before them, and never returns `None` |
| ValveExchange.OptionalPlayers | src/protocols/valve/protocol.rs:429-432 | players not asked for cost nothing and give `None`; asked for, they are `Some` on success and cost one or two datagrams |
| ValveExchange.OptionalRules | src/protocols/valve/protocol.rs:433-436 | rules not asked for cost nothing and give `None`; asked for, they are `Some` on success and cost one or two datagrams |
| ValveExchange.ResponseExchange | src/protocols/valve/protocol.rs:413-438 | a response holds the info `get_server_info` returns, the app id matches any expected one, and players and rules are present exactly when gathered; when gathered they are the lists `get_server_players` and `get_server_rules` return with the info reply's protocol, asked in that order on the network state the info exchange leaves |
| ValveExchange.WrongGameStopsEarly | src/protocols/valve/protocol.rs:419-425 | a mismatched Source app id fails with `BadGame` naming both ids right after the info exchange, with no further request; the decimal rendering of the expected id reads back to it |
| ValveExchange.ResponseRequestCount | src/protocols/valve/protocol.rs:413-438 | a successful response with `k` requests (info plus those gathered) sends between `k` and `2k` datagrams and keeps the earlier log |
| ValveExchange.QueryExchange | src/protocols/valve/protocol.rs:408-411 | without gathering settings `query` uses the defaults, so a successful response has both players and rules |
| Base.Decimal | src/protocols/valve/protocol.rs:422 | `{}` renders an unsigned number as digits with no leading zero |
| Base.DecimalRoundTrip | src/protocols/valve/protocol.rs:422 | reading the rendered digits back gives the number |
| Bufferer.Cursor.Rest | src/protocols/valve/protocol.rs:22 | the data in front of the position is the suffix from the position on, or nothing past the end |
| Bufferer.Cursor.GetU8 | src/protocols/valve/protocol.rs:162 | a byte read returns the first byte in front and advances by one, or underflows and stays put |
| Bufferer.Cursor.GetU16 | src/protocols/valve/protocol.rs:275 | a 16-bit read returns the little-endian value of the two bytes in front and drops them, or underflows and stays put |
| Bufferer.Cursor.GetU32 | src/protocols/valve/protocol.rs:20 | a 32-bit read returns the little-endian value of the four bytes in front and drops them, or underflows and stays put |
| Bufferer.Cursor.GetF32Bits | src/protocols/valve/protocol.rs:372 | a float read returns the raw little-endian bits of the four bytes in front and drops them, or underflows and stays put |
| Bufferer.Cursor.GetU64 | src/protocols/valve/protocol.rs:311 | a 64-bit read returns the little-endian value of the eight bytes in front and drops them, or underflows and stays put |
| Bufferer.Cursor.GetStringUtf8 | src/protocols/valve/protocol.rs:202 | a string read returns the UTF-8 text up to the first NUL and drops it with the NUL; a missing NUL, an empty buffer included, or ill-formed UTF-8 is `PacketBad`, and the cursor stays put |
| Bufferer.Cursor.MoveBackward | src/protocols/valve/protocol.rs:163 | moving back by `n` lowers the position by `n` |
| Bufferer.Cursor.MoveAhead | src/protocols/valve/protocol.rs:368 | moving ahead by one drops the next byte, or leaves nothing past the end |
| ValveClient.UdpSocket.Send | src/protocols/valve/protocol.rs:186 | sending appends the datagram to the log and changes nothing else |
| ValveClient.UdpSocket.Receive | src/protocols/valve/protocol.rs:159 | receiving behaves as `Datagram` on the socket's state |
| ValveClient.ValveProtocol.constructor | src/protocols/valve/protocol.rs:149-156 | the client holds the socket it was given |
| ValveClient.ValveProtocol.Receive | src/protocols/valve/protocol.rs:158-180 | the method's result and the socket state it leaves are those of `ReceiveExchange` |
| ValveClient.ValveProtocol.ReceiveFragments | src/protocols/valve/protocol.rs:165-176 | gathering, checking and decoding the rest of a split reply matches `Reassemble` |
| ValveClient.ValveProtocol.ReceiveFragment | src/protocols/valve/protocol.rs:168-170 | one more datagram decoded as a fragment, or the receive failure when none arrives; nothing is sent |
| ValveClient.ValveProtocol.GatherFragments | src/protocols/valve/protocol.rs:167-172 | the `for _ in 1..total` loop returns what `Gather` gives and leaves the datagrams it leaves |
| ValveClient.ValveProtocol.GetRequestData | src/protocols/valve/protocol.rs:183-198 | the method's result and final socket state are those of `RequestExchange` |
| ValveClient.ValveProtocol.GetServerInfo | src/protocols/valve/protocol.rs:260-357 | the method's result and final socket state are those of `InfoExchange` |
| ValveClient.ValveProtocol.GetServerPlayers | src/protocols/valve/protocol.rs:360-385 | the method's result and final socket state are those of `PlayersExchange` |
| ValveClient.ValveProtocol.GetServerRules | src/protocols/valve/protocol.rs:388-403 | the method's result and final socket state are those of `RulesExchange` |
| ValveClient.GetResponse | src/protocols/valve/protocol.rs:413-438 | the method's result and final socket state are those of `ResponseExchange` |
| ValveClient.Query | src/protocols/valve/protocol.rs:408-411 | the method's result and final socket state are those of `QueryExchange` |
| Types.New | src/protocols/types.rs:13-40 | settings are made exactly when neither timeout is zero; otherwise `InvalidInput` with the fixed message; made settings are valid and `get_read`/`get_write` return the timeouts given |
| Types.Default | src/protocols/types.rs:45-50 | the default settings are valid |
| Types.ZeroReadRefused | src/protocols/types.rs:14-18 | a zero read timeout is refused whatever the write timeout |
| Types.ZeroWriteRefused | src/protocols/types.rs:20-24 | a zero write timeout is refused whatever the read timeout |
| Types.NoTimeoutsAccepted | src/protocols/types.rs:26-29 | two absent timeouts are accepted and read back as absent |
| Types.DefaultPassesNew | src/protocols/types.rs:43-50 | the default is four seconds both ways, and `new` accepts it and returns it unchanged |

## Left out

- Opening the socket (`protocol.rs:149-151`) is not modelled: no address, port, `SocketBind` or `SocketConnect`. The client is given an already open scripted socket.
- Applying the timeouts (`protocol.rs:151`) is not modelled, because time is not modelled. A receive that times out is a receive with no datagram left, and it fails with one fixed `PacketReceive` text.
- The receive buffer size, `PACKET_SIZE` (`protocol.rs:146`), is not modelled. Datagrams are delivered whole, so `PacketOverflow` never arises.
- Send failures are not modelled: `UdpSocket.Send` always succeeds, so `PacketSend` never arises.
- The bzip2 decoder is a function-typed parameter. It stands for both `decoder.write` and `decoder.read`, and either of them failing is one `DecoderFailed` carrying a message. Its internals are not modelled.
- The internals of the byte cursor are not modelled, because its source is not part of this model. The `PacketBad` texts for a string without a NUL and for ill-formed UTF-8, and the `PacketUnderflow` text of `Bufferer.UNDERFLOW`, are the model's own.
- `ValveLists.ReadPlayerHead`: the 32-bit float `duration` is carried as its raw little-endian bits, because floating point is not modelled.
- ValveExchange.Reassemble, ValveExchange.ReceiveExchange, ValveExchange.ReassemblyInArrivalOrder, ValveClient.ValveProtocol.Receive, ValveClient.ValveProtocol.ReceiveFragments and everything built on them (`RequestExchange` up to `QueryExchange`, `GetRequestData` up to `Query`): these apply the corrected integrity check `ValvePacket.Payload` of the "Findings" section. A compressed split reply therefore behaves as intended, not as written (`protocol.rs:124-127`); the code as written is `ValvePacket.PayloadAsWritten`.
- ValveTypes.DEFAULT_GATHERING, used by `ValveExchange.QueryExchange` and `ValveClient.Query`: `GatheringSettings::default()` (`protocol.rs:409`) is not part of this model. It is assumed to gather both players and rules.
- ValvePacket.LowerUpper: `crate::utils::u8_lower_upper` (`protocol.rs:8`, used at `protocol.rs:85`) is not part of this model. It is assumed to return the low nibble first and the high nibble second, so `total` is the low nibble and `number` the high one.
- ValvePacket.Crc32: `crc32fast::hash` (`protocol.rs:130`) is not part of this model. It stands for the standard reflected CRC-32 (polynomial 0xEDB88320, initial value and final xor all ones), written out bit by bit.
- The `Display` texts of `GDError` (`errors.rs:45-65`) are formatting and are not modelled.
- The Minecraft protocol (`src/protocols/minecraft/protocol/mod.rs`) is not part of this model. In that file, `AutoQuery` is built with a message (`mod.rs:31`), while `errors.rs:38` declares it without one. The model follows `errors.rs`.
- Concurrency is not modelled, because the engine is single-threaded and each query owns its socket.

## Findings

| source | as written | input that shows it | evidently intended | confidence | as-written member | corrected member |
|---|---|---|---|---|---|---|
| src/protocols/valve/protocol.rs:124-127 | the decompressed bytes are read into `Vec::with_capacity(decompressed_size)`, a buffer of length zero, so nothing is decompressed into it and its length is 0 | a compressed fragment declaring decompressed size 1 and the CRC-32 of `[0x41]`, whose payload decompresses to `[0x41]`: it is refused with the size mismatch | the buffer holds the whole decompressed output, and the reply is accepted when its length and CRC-32 match the declared values | not executed | ValvePacket.PayloadAsWritten, shown by ValvePacket.AsWrittenRejectsCompressed and ValvePacket.AsWrittenCounterexample | ValvePacket.Payload |
