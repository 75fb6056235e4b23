/**
 * Packet framing of the Valve server query protocol (src/protocols/valve/protocol.rs):
 * the request builders, the decoder of a whole packet, the decoder of one
 * fragment of a split reply, and the size/CRC gate around decompression.
 */
module ValvePacket {
  import opened Base
  import opened Errors
  import opened Bufferer
  import opened ValveTypes

  // ---------------------------------------------------------------------------
  // Packet

  datatype Packet = Packet(header: u32, kind: byte, payload: seq<byte>)

  const ALL_ONES: u32 := 0xFFFF_FFFF
  /** Body of an INFO request: the ASCII text "Source Engine Query" and its NUL. */
  const INFO_PREAMBLE: seq<byte> :=
    [0x53, 0x6F, 0x75, 0x72, 0x63, 0x65, 0x20,              // S o u r c e _
     0x45, 0x6E, 0x67, 0x69, 0x6E, 0x65, 0x20,              // E n g i n e _
     0x51, 0x75, 0x65, 0x72, 0x79, 0x00]                    // Q u e r y NUL
  /** Body of a PLAYERS or RULES request before a challenge is known. */
  const NO_CHALLENGE: seq<byte> := [0xFF, 0xFF, 0xFF, 0xFF]

  /** The first request for `kind`. */
  function Initial(kind: Request): (p: Packet)
    ensures p.header == ALL_ONES && p.kind == kind.Code()
    ensures kind == Info ==> |p.payload| == 20 && p.payload[19] == 0 && 0 !in p.payload[..19]
    ensures kind != Info ==> |p.payload| == 4 && forall i :: 0 <= i < 4 ==> p.payload[i] == 0xFF
  {
    Packet(ALL_ONES, kind.Code(), if kind == Info then INFO_PREAMBLE else NO_CHALLENGE)
  }

  /** The request that echoes a server's challenge; INFO repeats its preamble first. */
  function Challenge(kind: Request, challenge: seq<byte>): (p: Packet)
    ensures p.header == ALL_ONES && p.kind == kind.Code()
    ensures |p.payload| == |challenge| + (if kind == Info then |INFO_PREAMBLE| else 0)
    ensures p.payload[|p.payload| - |challenge|..] == challenge
    ensures kind == Info ==> p.payload[..|INFO_PREAMBLE|] == INFO_PREAMBLE
  {
    var initial := Initial(kind);
    Packet(initial.header, initial.kind,
           if initial.kind == INFO_KIND then initial.payload + challenge else challenge)
  }

  /** `u32::to_be_bytes`. */
  function BE32(x: u32): seq<byte> {
    var le := LE32(x);
    [le[3], le[2], le[1], le[0]]
  }

  /** The header sent big-endian and read back little-endian. */
  function Swap32(x: u32): u32 {
    LeValue(BE32(x))
  }

  function ToBytes(p: Packet): (r: seq<byte>)
    ensures |r| == 5 + |p.payload|
    ensures r[..4] == BE32(p.header) && r[4] == p.kind && r[5..] == p.payload
  {
    BE32(p.header) + [p.kind] + p.payload
  }

  /** `Packet::new`: a 4-byte header, the kind byte, and everything after as payload. */
  function DecodePacket(s: seq<byte>): (r: GDResult<Packet>)
    ensures r.Ok? <==> |s| >= 5
    ensures r.Err? ==> r.error.PacketUnderflow?
    ensures r.Ok? ==> r.value.header == LeValue(s[..4]) && r.value.kind == s[4] && r.value.payload == s[5..]
  {
    var header :- U32(s);
    var kind :- U8(header.rest);
    Ok(Packet(header.value, kind.value, kind.rest))
  }

  /** The imperative `Packet::new`, reading from the caller's cursor. */
  method NewPacket(buffer: Cursor) returns (r: GDResult<Packet>)
    modifies buffer
    ensures r == DecodePacket(old(buffer.Rest()))
  {
    var header :- buffer.GetU32();
    var kind :- buffer.GetU8();
    r := Ok(Packet(header, kind, buffer.Rest()));
  }

  // ---------------------------------------------------------------------------
  // Properties of the builders and of the packet codec

  lemma AllOnesBytes()
    ensures LE32(ALL_ONES) == [0xFF, 0xFF, 0xFF, 0xFF]
    ensures BE32(ALL_ONES) == [0xFF, 0xFF, 0xFF, 0xFF]
    ensures Swap32(ALL_ONES) == ALL_ONES
  {
    assert LeBytes(0xFF, 1) == [0xFF];
    assert LeBytes(0xFFFF, 2) == [0xFF, 0xFF];
    assert LeBytes(0xFF_FFFF, 3) == [0xFF, 0xFF, 0xFF];
    LeValueOfBytes(ALL_ONES, 4);
  }

  /** The wire image of a first request: four 0xFF bytes, the kind byte, then the INFO preamble or four more 0xFF bytes. */
  lemma InitialWire(kind: Request)
    ensures ToBytes(Initial(kind)) == [0xFF, 0xFF, 0xFF, 0xFF, kind.Code()] + (if kind == Info then INFO_PREAMBLE else NO_CHALLENGE)
  {
    AllOnesBytes();
    assert BE32(ALL_ONES) + [kind.Code()] == [0xFF, 0xFF, 0xFF, 0xFF, kind.Code()];
  }

  /** Only INFO has kind byte 0x54, so the challenge repeats the preamble exactly for INFO. */
  lemma ChallengeShape(kind: Request, token: seq<byte>)
    ensures Challenge(kind, token).header == Initial(kind).header == ALL_ONES
    ensures Challenge(kind, token).kind == Initial(kind).kind == kind.Code()
    ensures kind == Info ==> Challenge(kind, token).payload == INFO_PREAMBLE + token
    ensures kind != Info ==> Challenge(kind, token).payload == token
  {
  }

  /** Encoding then decoding a packet gives back its kind and payload; the header comes back byte-swapped. */
  lemma {:induction false} PacketRoundTrip(p: Packet)
    ensures DecodePacket(ToBytes(p)) == Ok(Packet(Swap32(p.header), p.kind, p.payload))
  {
  }

  /** With the all-ones header every request uses, byte order does not matter. */
  lemma AllOnesRoundTrip(p: Packet)
    requires p.header == ALL_ONES
    ensures DecodePacket(ToBytes(p)) == Ok(p)
  {
    PacketRoundTrip(p);
    AllOnesBytes();
  }

  /** Every request the client builds survives the wire unchanged. */
  lemma RequestsRoundTrip(kind: Request, token: seq<byte>)
    ensures DecodePacket(ToBytes(Initial(kind))) == Ok(Initial(kind))
    ensures DecodePacket(ToBytes(Challenge(kind, token))) == Ok(Challenge(kind, token))
  {
    AllOnesRoundTrip(Initial(kind));
    AllOnesRoundTrip(Challenge(kind, token));
  }

  // ---------------------------------------------------------------------------
  // SplitPacket

  datatype SplitPacket = SplitPacket(
    header: u32,
    id: u32,
    total: byte,
    number: byte,
    size: u16,
    compressed: bool,
    decompressedSize: Option<u32>,
    uncompressedCrc32: Option<u32>,
    payload: seq<byte>)

  /** Size a CSS server with protocol 7 uses and does not send. */
  const CSS_SPLIT_SIZE: u16 := 1248

  /** `u8_lower_upper`: the low and the high nibble of a byte. */
  function LowerUpper(b: byte): (r: (byte, byte))
    ensures r.0 < 16 && r.1 < 16 && r.0 + 16 * r.1 == b
  {
    (b % 16, b / 16)
  }

  /** The fragments that carry no size field on the wire. */
  predicate NoSizeField(app: App, protocol: byte) {
    protocol == 7 && app == CSS
  }

  /** `((id >> 31) & 1) == 1`. */
  predicate Bit31(id: u32) {
    (id / 0x8000_0000) % 2 == 1
  }

  function SizeField(app: App, protocol: byte, s: seq<byte>): GDResult<Read<u16>> {
    if NoSizeField(app, protocol) then Ok(Read(CSS_SPLIT_SIZE, s)) else U16(s)
  }

  /** The decompressed-size and CRC words, read only when the fragment is compressed. */
  function IntegrityWords(compressed: bool, s: seq<byte>): (r: GDResult<Read<(Option<u32>, Option<u32>)>>)
    ensures r.Ok? ==> (r.value.value.0.Some? <==> compressed) && (r.value.value.1.Some? <==> compressed)
  {
    if !compressed then Ok(Read((None, None), s))
    else
      var decompressedSize :- U32(s);
      var crc :- U32(decompressedSize.rest);
      Ok(Read((Some(decompressedSize.value), Some(crc.value)), crc.rest))
  }

  /** GoldSrc: one byte holds total (low nibble) and number (high nibble). */
  function GoldSrcFragment(header: u32, id: u32, s: seq<byte>): GDResult<SplitPacket> {
    var b :- U8(s);
    var (lower, upper) := LowerUpper(b.value);
    Ok(SplitPacket(header, id, lower, upper, 0, false, None, None, b.rest))
  }

  /** Source: total, number, the size field, and the integrity words. */
  function SourceFragment(app: App, protocol: byte, header: u32, id: u32, s: seq<byte>): GDResult<SplitPacket> {
    var total :- U8(s);
    var number :- U8(total.rest);
    var size :- SizeField(app, protocol, number.rest);
    var compressed := Bit31(id);
    var words :- IntegrityWords(compressed, size.rest);
    Ok(SplitPacket(header, id, total.value, number.value, size.value, compressed,
                   words.value.0, words.value.1, words.rest))
  }

  /** `SplitPacket::new`, on the bytes in front of the cursor. */
  function DecodeSplit(app: App, protocol: byte, s: seq<byte>): (r: GDResult<SplitPacket>)
    ensures r.Ok? ==> HasIntegrityWords(r.value)
  {
    var header :- U32(s);
    var id :- U32(header.rest);
    match app
    case GoldSrc(_) => GoldSrcFragment(header.value, id.value, id.rest)
    case Source(_) => SourceFragment(app, protocol, header.value, id.value, id.rest)
  }

  /** The imperative `SplitPacket::new`, advancing the caller's cursor field by field. */
  method NewSplitPacket(app: App, protocol: byte, buffer: Cursor) returns (r: GDResult<SplitPacket>)
    modifies buffer
    ensures r == DecodeSplit(app, protocol, old(buffer.Rest()))
  {
    var header :- buffer.GetU32();
    var id :- buffer.GetU32();
    match app {
      case GoldSrc(_) =>
        r := ReadGoldSrcFragment(header, id, buffer);
      case Source(_) =>
        r := ReadSourceFragment(app, protocol, header, id, buffer);
    }
  }

  method ReadGoldSrcFragment(header: u32, id: u32, buffer: Cursor) returns (r: GDResult<SplitPacket>)
    modifies buffer
    ensures r == GoldSrcFragment(header, id, old(buffer.Rest()))
  {
    var b :- buffer.GetU8();
    var (lower, upper) := LowerUpper(b);
    r := Ok(SplitPacket(header, id, lower, upper, 0, false, None, None, buffer.Rest()));
  }

  method ReadSourceFragment(app: App, protocol: byte, header: u32, id: u32, buffer: Cursor)
    returns (r: GDResult<SplitPacket>)
    modifies buffer
    ensures r == SourceFragment(app, protocol, header, id, old(buffer.Rest()))
  {
    var total :- buffer.GetU8();
    var number :- buffer.GetU8();
    var size;
    if NoSizeField(app, protocol) {
      size := CSS_SPLIT_SIZE;
    } else {
      size :- buffer.GetU16();
    }
    var compressed := Bit31(id);
    var words :- ReadIntegrityWords(compressed, buffer);
    r := Ok(SplitPacket(header, id, total, number, size, compressed, words.0, words.1, buffer.Rest()));
  }

  method ReadIntegrityWords(compressed: bool, buffer: Cursor) returns (r: GDResult<(Option<u32>, Option<u32>)>)
    modifies buffer
    ensures r == ValueOf(IntegrityWords(compressed, old(buffer.Rest())))
    ensures r.Ok? ==> buffer.Rest() == IntegrityWords(compressed, old(buffer.Rest())).value.rest
  {
    if compressed {
      var d :- buffer.GetU32();
      var c :- buffer.GetU32();
      r := Ok((Some(d), Some(c)));
    } else {
      r := Ok((None, None));
    }
  }

  // ---------------------------------------------------------------------------
  // Split-fragment layout, byte by byte

  /** Bit 31 of a little-endian id is the top bit of its last byte. */
  lemma Bit31OfBytes(b: seq<byte>)
    requires |b| == 4
    ensures Bit31(LeValue(b)) <==> b[3] >= 0x80
  {
    LeValue4(b);
  }

  /** A GoldSrc fragment: header, id, one nibble-packed count byte, then payload. */
  lemma SplitGoldSrcLayout(force: bool, protocol: byte, s: seq<byte>)
    ensures DecodeSplit(GoldSrc(force), protocol, s).Ok? <==> |s| >= 9
    ensures DecodeSplit(GoldSrc(force), protocol, s).Err? ==> DecodeSplit(GoldSrc(force), protocol, s).error.PacketUnderflow?
    ensures DecodeSplit(GoldSrc(force), protocol, s).Ok? ==>
      var f := DecodeSplit(GoldSrc(force), protocol, s).value;
      && f.header == LeValue(s[..4]) && f.id == LeValue(s[4..8])
      && f.total == s[8] % 16 && f.number == s[8] / 16
      && f.size == 0 && !f.compressed
      && f.decompressedSize == None && f.uncompressedCrc32 == None
      && f.payload == s[9..]
  {
    if |s| >= 9 {
      assert s[4..][..4] == s[4..8];
      assert s[4..][4..][1..] == s[9..];
    }
  }

  /** Length of the fixed part of a Source fragment. */
  function SourcePrefixLength(app: App, protocol: byte, compressed: bool): nat {
    10 + (if NoSizeField(app, protocol) then 0 else 2) + (if compressed then 8 else 0)
  }

  /**
   * A Source fragment: header, id, total, number, a 16-bit size unless the
   * CSS/protocol-7 exception applies (then 1248 and nothing consumed), and
   * size and CRC words exactly when bit 31 of the id is set.
   */
  lemma SplitSourceLayout(app: App, protocol: byte, s: seq<byte>)
    requires app.Source?
    ensures
      var r := DecodeSplit(app, protocol, s);
      var c := |s| >= 8 && s[7] >= 0x80;
      var k := 10 + (if NoSizeField(app, protocol) then 0 else 2);
      && (r.Ok? <==> |s| >= SourcePrefixLength(app, protocol, c))
      && (r.Err? ==> r.error.PacketUnderflow?)
      && (r.Ok? ==>
        && r.value.header == LeValue(s[..4]) && r.value.id == LeValue(s[4..8])
        && r.value.total == s[8] && r.value.number == s[9]
        && r.value.size == (if NoSizeField(app, protocol) then CSS_SPLIT_SIZE else s[10] as int + 256 * s[11] as int)
        && r.value.compressed == c
        && r.value.decompressedSize == (if c then Some(LeValue(s[k..k + 4])) else None)
        && r.value.uncompressedCrc32 == (if c then Some(LeValue(s[k + 4..k + 8])) else None)
        && r.value.payload == s[SourcePrefixLength(app, protocol, c)..])
  {
    if |s| >= 8 {
      Bit31OfBytes(s[4..8]);
      assert s[4..][..4] == s[4..8];
      var afterId := s[8..];
      assert s[4..][4..] == afterId;
      var k := 10 + (if NoSizeField(app, protocol) then 0 else 2);
      if |s| >= k {
        var afterSize := s[k..];
        assert afterId[1..][1..] == s[10..];
        if !NoSizeField(app, protocol) {
          assert s[10..][..2] == s[10..12];
          LeValue2(s[10..12]);
          assert s[10..][2..] == afterSize;
        }
        assert SizeField(app, protocol, s[10..]).Ok? && SizeField(app, protocol, s[10..]).value.rest == afterSize;
        if |s| >= k + 8 {
          assert afterSize[..4] == s[k..k + 4];
          assert afterSize[4..][..4] == s[k + 4..k + 8];
          assert afterSize[4..][4..] == s[k + 8..];
        }
      }
    }
  }

  // ---------------------------------------------------------------------------
  // The fragment encoder and the bijection with the decoder

  /** The fragments the decoder can produce for `app` and `protocol`. */
  predicate WellFormedSplit(app: App, protocol: byte, f: SplitPacket) {
    match app
    case GoldSrc(_) =>
      && f.total < 16 && f.number < 16 && f.size == 0 && !f.compressed
      && f.decompressedSize == None && f.uncompressedCrc32 == None
    case Source(_) =>
      && f.compressed == Bit31(f.id)
      && (NoSizeField(app, protocol) ==> f.size == CSS_SPLIT_SIZE)
      && (f.decompressedSize.Some? <==> f.compressed)
      && (f.uncompressedCrc32.Some? <==> f.compressed)
  }

  function EncodeWords(f: SplitPacket): seq<byte>
    requires f.compressed ==> HasIntegrityWords(f)
  {
    if f.compressed then LE32(f.decompressedSize.value) + LE32(f.uncompressedCrc32.value) else []
  }

  /** Everything after the id. */
  function EncodeSplitTail(app: App, protocol: byte, f: SplitPacket): seq<byte>
    requires WellFormedSplit(app, protocol, f)
  {
    match app
    case GoldSrc(_) => [f.total + 16 * f.number] + f.payload
    case Source(_) =>
      [f.total, f.number]
      + (if NoSizeField(app, protocol) then [] else LE16(f.size))
      + EncodeWords(f) + f.payload
  }

  function EncodeSplit(app: App, protocol: byte, f: SplitPacket): seq<byte>
    requires WellFormedSplit(app, protocol, f)
  {
    LE32(f.header) + LE32(f.id) + EncodeSplitTail(app, protocol, f)
  }

  lemma IntegrityWordsRoundTrip(f: SplitPacket)
    requires (f.decompressedSize.Some? <==> f.compressed) && (f.uncompressedCrc32.Some? <==> f.compressed)
    ensures IntegrityWords(f.compressed, EncodeWords(f) + f.payload)
         == Ok(Read((f.decompressedSize, f.uncompressedCrc32), f.payload))
  {
    if f.compressed {
      var second := LE32(f.uncompressedCrc32.value) + f.payload;
      assert EncodeWords(f) + f.payload == LE32(f.decompressedSize.value) + second;
      U32RoundTrip(f.decompressedSize.value, second);
      U32RoundTrip(f.uncompressedCrc32.value, f.payload);
      var s := EncodeWords(f) + f.payload;
      assert U32(s) == Ok(Read(f.decompressedSize.value, second));
      assert U32(second) == Ok(Read(f.uncompressedCrc32.value, f.payload));
      assert Some(f.decompressedSize.value) == f.decompressedSize;
      assert Some(f.uncompressedCrc32.value) == f.uncompressedCrc32;
    } else {
      assert EncodeWords(f) + f.payload == f.payload;
    }
  }

  lemma SourceTailRoundTrip(app: App, protocol: byte, f: SplitPacket)
    requires app.Source? && WellFormedSplit(app, protocol, f)
    ensures SourceFragment(app, protocol, f.header, f.id, EncodeSplitTail(app, protocol, f)) == Ok(f)
  {
    var tail := EncodeSplitTail(app, protocol, f);
    var afterCounts := tail[2..];
    var wordsAndPayload := EncodeWords(f) + f.payload;
    assert tail == [f.total, f.number] + afterCounts;
    if NoSizeField(app, protocol) {
      assert afterCounts == wordsAndPayload;
    } else {
      assert afterCounts == LE16(f.size) + wordsAndPayload;
      U16RoundTrip(f.size, wordsAndPayload);
    }
    assert SizeField(app, protocol, afterCounts) == Ok(Read(f.size, wordsAndPayload));
    IntegrityWordsRoundTrip(f);
  }

  lemma SplitRoundTrip(app: App, protocol: byte, f: SplitPacket)
    requires WellFormedSplit(app, protocol, f)
    ensures DecodeSplit(app, protocol, EncodeSplit(app, protocol, f)) == Ok(f)
  {
    var tail := EncodeSplitTail(app, protocol, f);
    assert EncodeSplit(app, protocol, f) == LE32(f.header) + (LE32(f.id) + tail);
    U32RoundTrip(f.header, LE32(f.id) + tail);
    U32RoundTrip(f.id, tail);
    if app.Source? {
      SourceTailRoundTrip(app, protocol, f);
    }
  }

  lemma IntegrityWordsInverse(compressed: bool, s: seq<byte>)
    requires IntegrityWords(compressed, s).Ok?
    ensures
      var w := IntegrityWords(compressed, s).value;
      && (w.value.0.Some? <==> compressed) && (w.value.1.Some? <==> compressed)
      && s == (if compressed then LE32(w.value.0.value) + LE32(w.value.1.value) else []) + w.rest
  {
    if compressed {
      U32Inverse(s);
      U32Inverse(s[4..]);
    }
  }

  lemma SizeFieldInverse(app: App, protocol: byte, s: seq<byte>)
    requires SizeField(app, protocol, s).Ok?
    ensures
      var w := SizeField(app, protocol, s).value;
      s == (if NoSizeField(app, protocol) then [] else LE16(w.value)) + w.rest
  {
    if !NoSizeField(app, protocol) {
      U16Inverse(s);
    }
  }

  lemma SourceTailInverse(app: App, protocol: byte, header: u32, id: u32, s: seq<byte>)
    requires app.Source? && SourceFragment(app, protocol, header, id, s).Ok?
    ensures WellFormedSplit(app, protocol, SourceFragment(app, protocol, header, id, s).value)
    ensures EncodeSplitTail(app, protocol, SourceFragment(app, protocol, header, id, s).value) == s
  {
    var f := SourceFragment(app, protocol, header, id, s).value;
    var v := s[2..];
    var size := SizeField(app, protocol, v).value;
    var w := size.rest;
    var words := IntegrityWords(f.compressed, w).value;
    assert f == SplitPacket(header, id, s[0], s[1], size.value, Bit31(id), words.value.0, words.value.1, words.rest);
    assert s == [f.total, f.number] + v;
    SizeFieldInverse(app, protocol, v);
    IntegrityWordsInverse(f.compressed, w);
    assert w == EncodeWords(f) + f.payload;
  }

  lemma GoldSrcTailInverse(header: u32, id: u32, s: seq<byte>)
    requires GoldSrcFragment(header, id, s).Ok?
    ensures
      var f := GoldSrcFragment(header, id, s).value;
      [f.total + 16 * f.number] + f.payload == s
  {
    assert s == [s[0]] + s[1..];
  }

  /** Every decoded fragment is well formed and re-encodes to exactly the bytes it came from. */
  lemma SplitInverse(app: App, protocol: byte, s: seq<byte>)
    requires DecodeSplit(app, protocol, s).Ok?
    ensures WellFormedSplit(app, protocol, DecodeSplit(app, protocol, s).value)
    ensures EncodeSplit(app, protocol, DecodeSplit(app, protocol, s).value) == s
  {
    var f := DecodeSplit(app, protocol, s).value;
    U32Inverse(s);
    var t := s[4..];
    U32Inverse(t);
    var u := t[4..];
    assert s == LE32(f.header) + (LE32(f.id) + u);
    match app {
      case GoldSrc(_) =>
        GoldSrcTailInverse(f.header, f.id, u);
      case Source(_) =>
        SourceTailInverse(app, protocol, f.header, f.id, u);
    }
  }

  // ---------------------------------------------------------------------------
  // Integrity check

  /**
   * CRC-32 as computed by `crc32fast::hash`: the reflected IEEE 802.3
   * polynomial 0xEDB88320, initial value and final xor all ones.
   */
  function CrcShift(c: bv32, k: nat): bv32
    decreases k
  {
    if k == 0 then c
    else CrcShift(if c & 1 == 1 then (c >> 1) ^ 0xEDB8_8320 else c >> 1, k - 1)
  }

  function CrcRun(crc: bv32, s: seq<byte>): bv32
    decreases |s|
  {
    if s == [] then crc else CrcRun(CrcShift(crc ^ (s[0] as bv32), 8), s[1..])
  }

  function Crc32(s: seq<byte>): u32 {
    (CrcRun(0xFFFF_FFFF, s) ^ 0xFFFF_FFFF) as int
  }

  /** A published CRC-32 value: the one-byte ASCII text "a" hashes to 0xE8B7BE43. */
  lemma Crc32OfA()
    ensures Crc32([0x61]) == 0xE8B7_BE43
  {
    var s: seq<byte> := [0x61];
    assert (s[0] as bv32) == 0x61;
    assert CrcShift(0xFFFF_FFFF ^ 0x61, 8) == 0x1748_41BC;
    assert CrcRun(0x1748_41BC, s[1..]) == 0x1748_41BC;
    assert CrcRun(0xFFFF_FFFF, s) == 0x1748_41BC;
    assert ((0x1748_41BC as bv32) ^ 0xFFFF_FFFF) as int == 0xE8B7_BE43;
  }

  /** What the bzip2 decoder makes of a compressed payload. The decoder itself is not modelled. */
  datatype Decoded = Decoded(bytes: seq<byte>) | DecoderFailed(message: string)

  type Decompressor = seq<byte> -> Decoded

  /** `get_payload`'s `unwrap`s need both words on a compressed fragment. */
  predicate HasIntegrityWords(f: SplitPacket) {
    f.compressed ==> f.decompressedSize.Some? && f.uncompressedCrc32.Some?
  }

  const SIZE_MISMATCH: GDError := Decompress("The decompressed payload size doesn't match the expected one.")
  const CRC_MISMATCH: GDError := Decompress("The decompressed crc32 hash does not match the expected one.")

  /** The two checks applied to the bytes the decoder left in the output buffer. */
  function CheckDecompressed(f: SplitPacket, out: seq<byte>): GDResult<seq<byte>>
    requires f.compressed && HasIntegrityWords(f)
  {
    if |out| != f.decompressedSize.value then Err(SIZE_MISMATCH)
    else if Crc32(out) != f.uncompressedCrc32.value then Err(CRC_MISMATCH)
    else Ok(out)
  }

  /**
   * `get_payload` with the decompressed bytes taken in full: an uncompressed
   * fragment gives its payload; a compressed one gives the decompressed
   * bytes only when their length and CRC-32 match the declared values.
   */
  function Payload(f: SplitPacket, decompress: Decompressor): (r: GDResult<seq<byte>>)
    requires HasIntegrityWords(f)
    ensures !f.compressed ==> r == Ok(f.payload)
    ensures f.compressed ==>
      (r.Ok? <==> (decompress(f.payload).Decoded?
                   && |decompress(f.payload).bytes| == f.decompressedSize.value
                   && Crc32(decompress(f.payload).bytes) == f.uncompressedCrc32.value))
    ensures f.compressed && r.Ok? ==> r.value == decompress(f.payload).bytes
    ensures r.Err? ==> r.error.Decompress?
  {
    if f.compressed then
      match decompress(f.payload)
      case DecoderFailed(message) => Err(Decompress(message))
      case Decoded(out) => CheckDecompressed(f, out)
    else Ok(f.payload)
  }

  /**
   * `get_payload` as written: the decoder reads into `Vec::with_capacity(n)`,
   * which is a slice of length zero, so no decompressed byte reaches the checks.
   */
  function PayloadAsWritten(f: SplitPacket, decompress: Decompressor): (r: GDResult<seq<byte>>)
    requires HasIntegrityWords(f)
    ensures !f.compressed ==> r == Ok(f.payload)
    ensures f.compressed && r.Ok? ==> f.decompressedSize.value == 0 && r.value == []
    ensures r.Err? ==> r.error.Decompress?
  {
    if f.compressed then
      match decompress(f.payload)
      case DecoderFailed(message) => Err(Decompress(message))
      case Decoded(out) => CheckDecompressed(f, out[..0])
    else Ok(f.payload)
  }

  /** As written, a compressed reply with a non-empty declared size is always refused. */
  lemma AsWrittenRejectsCompressed(f: SplitPacket, decompress: Decompressor)
    requires f.compressed && HasIntegrityWords(f) && f.decompressedSize.value > 0
    ensures PayloadAsWritten(f, decompress).Err?
  {
  }

  /** A concrete compressed fragment that passes the checks as intended and fails them as written. */
  lemma AsWrittenCounterexample()
    ensures
      var f := SplitPacket(0xFFFF_FFFE, 0x8000_0000, 1, 0, 1248, true, Some(1), Some(Crc32([0x41])), [0x42]);
      var decompress: Decompressor := _ => Decoded([0x41]);
      && Payload(f, decompress) == Ok([0x41])
      && PayloadAsWritten(f, decompress) == Err(SIZE_MISMATCH)
  {
  }
}
