/**
 * The byte cursor the protocol reads its datagrams with (`crate::bufferer`,
 * created with `Endianess::Little`). Its implementation is not part of this
 * model; what is modelled is the contract the Valve code relies on:
 * little-endian fixed-width reads, NUL-terminated UTF-8 strings, relative
 * moves, and "the bytes in front of the position". A read past the end is a
 * `PacketUnderflow`; a string without terminator or with ill-formed UTF-8 is a
 * `PacketBad`.
 *
 * The readers are pure functions on the bytes that remain in front of the
 * cursor; the `Cursor` class is the mutable object the Rust code passes around
 * as `&mut Bufferer`, and its methods are specified by those functions.
 */
module Bufferer {
  import opened Base
  import opened Errors

  type byte = x: int | 0 <= x < 0x100
  type u16 = x: int | 0 <= x < 0x1_0000
  type u32 = x: int | 0 <= x < 0x1_0000_0000
  type u64 = x: int | 0 <= x < 0x1_0000_0000_0000_0000

  // ---------------------------------------------------------------------------
  // Little-endian integers

  function Pow256(n: nat): (r: nat)
    ensures r > 0
  {
    if n == 0 then 1 else 256 * Pow256(n - 1)
  }

  /** The value of `bs` read as an unsigned little-endian integer. */
  function LeValue(bs: seq<byte>): (r: nat)
    ensures r < Pow256(|bs|)
  {
    if bs == [] then 0 else bs[0] + 256 * LeValue(bs[1..])
  }

  /** The `n` low-order bytes of `x`, least significant first. */
  function LeBytes(x: nat, n: nat): (r: seq<byte>)
    ensures |r| == n
  {
    if n == 0 then [] else [x % 256] + LeBytes(x / 256, n - 1)
  }

  lemma {:induction false} LeValueOfBytes(x: nat, n: nat)
    requires x < Pow256(n)
    ensures LeValue(LeBytes(x, n)) == x
  {
    if n > 0 {
      LeValueOfBytes(x / 256, n - 1);
      assert LeBytes(x, n)[1..] == LeBytes(x / 256, n - 1);
    }
  }

  lemma {:induction false} LeBytesOfValue(bs: seq<byte>)
    ensures LeBytes(LeValue(bs), |bs|) == bs
  {
    if bs != [] {
      var v := LeValue(bs);
      assert v % 256 == bs[0] && v / 256 == LeValue(bs[1..]);
      LeBytesOfValue(bs[1..]);
    }
  }

  /** The value of four and of two bytes, written out. */
  lemma LeValue4(b: seq<byte>)
    requires |b| == 4
    ensures LeValue(b) == b[0] as int + 0x100 * b[1] as int + 0x1_0000 * b[2] as int + 0x100_0000 * b[3] as int
  {
    assert LeValue(b[3..]) == b[3] by { assert b[3..][1..] == []; }
    assert LeValue(b[2..]) == b[2] as int + 256 * b[3] as int by { assert b[2..][1..] == b[3..]; }
    assert LeValue(b[1..]) == b[1] + 256 * LeValue(b[2..]) by { assert b[1..][1..] == b[2..]; }
  }

  lemma LeValue2(b: seq<byte>)
    requires |b| == 2
    ensures LeValue(b) == b[0] as int + 0x100 * b[1] as int
  {
    assert b[1..][1..] == [];
  }

  /** Writers used by the encoders that the decoders are proved against. */
  function LE16(x: u16): seq<byte> { LeBytes(x, 2) }
  function LE32(x: u32): seq<byte> { LeBytes(x, 4) }
  function LE64(x: u64): seq<byte> { LeBytes(x, 8) }

  // ---------------------------------------------------------------------------
  // UTF-8: the well-formed byte sequences of the Unicode Standard, Table 3-7

  predicate Cont(b: byte) { 0x80 <= b <= 0xBF }

  /** Length of the well-formed code-unit sequence that starts `s`, or 0 if `s` starts ill-formed. */
  function Utf8Width(s: seq<byte>): (w: nat)
    requires |s| > 0
    ensures w <= 4 && w <= |s|
  {
    var b := s[0];
    if b <= 0x7F then 1
    else if 0xC2 <= b <= 0xDF then
      (if |s| >= 2 && Cont(s[1]) then 2 else 0)
    else if 0xE0 <= b <= 0xEF then
      (if |s| >= 3 && Cont(s[2]) &&
          (if b == 0xE0 then 0xA0 <= s[1] <= 0xBF
           else if b == 0xED then 0x80 <= s[1] <= 0x9F
           else Cont(s[1]))
       then 3 else 0)
    else if 0xF0 <= b <= 0xF4 then
      (if |s| >= 4 && Cont(s[2]) && Cont(s[3]) &&
          (if b == 0xF0 then 0x90 <= s[1] <= 0xBF
           else if b == 0xF4 then 0x80 <= s[1] <= 0x8F
           else Cont(s[1]))
       then 4 else 0)
    else 0
  }

  predicate ValidUtf8(s: seq<byte>)
    decreases |s|
  {
    s == [] || (Utf8Width(s) > 0 && ValidUtf8(s[Utf8Width(s)..]))
  }

  /** A string that can travel NUL-terminated: well-formed UTF-8 with no NUL inside. */
  predicate WireString(s: seq<byte>) {
    ValidUtf8(s) && 0 !in s
  }

  /** NUL-terminated encoding of a string. */
  function CString(s: seq<byte>): seq<byte> { s + [0] }

  // ---------------------------------------------------------------------------
  // Pure readers: each returns the value read and the bytes left in front.

  datatype Read<+T> = Read(value: T, rest: seq<byte>)

  const UNDERFLOW: GDError := PacketUnderflow("Unexpected end of buffer.")

  function U8(s: seq<byte>): GDResult<Read<byte>> {
    if |s| < 1 then Err(UNDERFLOW) else Ok(Read(s[0], s[1..]))
  }

  function U16(s: seq<byte>): GDResult<Read<u16>> {
    if |s| < 2 then Err(UNDERFLOW) else Ok(Read(LeValue(s[..2]), s[2..]))
  }

  function U32(s: seq<byte>): GDResult<Read<u32>> {
    if |s| < 4 then Err(UNDERFLOW) else Ok(Read(LeValue(s[..4]), s[4..]))
  }

  function U64(s: seq<byte>): GDResult<Read<u64>> {
    if |s| < 8 then Err(UNDERFLOW) else Ok(Read(LeValue(s[..8]), s[8..]))
  }

  /** Index of the first NUL in `s`, or `|s|` when there is none. */
  function NulIndex(s: seq<byte>): (k: nat)
    ensures k <= |s|
    ensures k < |s| ==> s[k] == 0
    ensures forall i :: 0 <= i < k ==> s[i] != 0
  {
    if s == [] || s[0] == 0 then 0 else 1 + NulIndex(s[1..])
  }

  /** A NUL-terminated UTF-8 string; the terminator is consumed, not returned. */
  function Utf8String(s: seq<byte>): GDResult<Read<seq<byte>>> {
    var k := NulIndex(s);
    if k == |s| then Err(PacketBad("String is not NUL-terminated."))
    else if !ValidUtf8(s[..k]) then Err(PacketBad("String is not valid UTF-8."))
    else Ok(Read(s[..k], s[k + 1..]))
  }

  /** Moving the position ahead by one byte; past the end nothing is left. */
  function Skip1(s: seq<byte>): seq<byte> {
    if s == [] then [] else s[1..]
  }

  /**
   * A field read only when `present` (the source's
   * `match … { false => None, true => Some(…?) }`); `r` is what the reader
   * makes of `s`.
   */
  function Opt<T>(present: bool, r: GDResult<Read<T>>, s: seq<byte>): GDResult<Read<Option<T>>> {
    if !present then Ok(Read(None, s))
    else if r.Err? then Err(r.error)
    else Ok(Read(Some(r.value.value), r.value.rest))
  }

  /** The value of a read, without the rest. */
  function ValueOf<T>(r: GDResult<Read<T>>): GDResult<T> {
    if r.Ok? then Ok(r.value.value) else Err(r.error)
  }

  // ---------------------------------------------------------------------------
  // Reader properties: each reader inverts its writer, and a string read
  // gives back the text and the bytes after its terminator.

  lemma IntRoundTrip(x: nat, n: nat, t: seq<byte>)
    requires x < Pow256(n)
    ensures (LeBytes(x, n) + t)[..n] == LeBytes(x, n)
    ensures (LeBytes(x, n) + t)[n..] == t
    ensures LeValue((LeBytes(x, n) + t)[..n]) == x
  {
    assert (LeBytes(x, n) + t)[..n] == LeBytes(x, n);
    LeValueOfBytes(x, n);
  }

  lemma U16RoundTrip(x: u16, t: seq<byte>)
    ensures U16(LE16(x) + t) == Ok(Read(x, t))
  {
    IntRoundTrip(x, 2, t);
  }

  lemma U32RoundTrip(x: u32, t: seq<byte>)
    ensures U32(LE32(x) + t) == Ok(Read(x, t))
  {
    IntRoundTrip(x, 4, t);
  }

  lemma U64RoundTrip(x: u64, t: seq<byte>)
    ensures U64(LE64(x) + t) == Ok(Read(x, t))
  {
    IntRoundTrip(x, 8, t);
  }

  lemma {:induction false} NulIndexOfCString(s: seq<byte>, t: seq<byte>)
    requires 0 !in s
    ensures NulIndex(CString(s) + t) == |s|
  {
    var u := CString(s) + t;
    assert u[|s|] == 0;
    assert forall i :: 0 <= i < |s| ==> u[i] == s[i];
  }

  lemma Utf8StringRoundTrip(s: seq<byte>, t: seq<byte>)
    requires WireString(s)
    ensures Utf8String(CString(s) + t) == Ok(Read(s, t))
  {
    var u := CString(s) + t;
    NulIndexOfCString(s, t);
    assert u[..|s|] == s;
    assert u[|s| + 1..] == t;
  }

  lemma Utf8StringInverse(s: seq<byte>)
    requires Utf8String(s).Ok?
    ensures WireString(Utf8String(s).value.value)
    ensures s == CString(Utf8String(s).value.value) + Utf8String(s).value.rest
  {
    var k := NulIndex(s);
    assert s == s[..k] + [0] + s[k + 1..];
    assert forall i :: 0 <= i < k ==> s[..k][i] != 0;
  }

  lemma U32Inverse(s: seq<byte>)
    requires |s| >= 4
    ensures s == LE32(U32(s).value.value) + U32(s).value.rest
  {
    LeBytesOfValue(s[..4]);
    assert s == s[..4] + s[4..];
  }

  lemma U16Inverse(s: seq<byte>)
    requires |s| >= 2
    ensures s == LE16(U16(s).value.value) + U16(s).value.rest
  {
    LeBytesOfValue(s[..2]);
    assert s == s[..2] + s[2..];
  }

  lemma U64Inverse(s: seq<byte>)
    requires |s| >= 8
    ensures s == LE64(U64(s).value.value) + U64(s).value.rest
  {
    LeBytesOfValue(s[..8]);
    assert s == s[..8] + s[8..];
  }

  // ---------------------------------------------------------------------------
  // The cursor object

  class Cursor {
    const data: seq<byte>
    var pos: nat

    constructor (data: seq<byte>)
      ensures this.data == data && pos == 0
    {
      this.data := data;
      pos := 0;
    }

    /** The bytes in front of the position (`get_data_in_front_of_position`). */
    function Rest(): (r: seq<byte>)
      reads this
      ensures pos <= |data| ==> r == data[pos..]
      ensures pos > |data| ==> r == []
    {
      if pos <= |data| then data[pos..] else []
    }

    method GetU8() returns (r: GDResult<byte>)
      modifies this
      ensures r == ValueOf(U8(old(Rest())))
      ensures r.Ok? ==> Rest() == U8(old(Rest())).value.rest
      ensures r.Ok? ==> pos == old(pos) + 1
      ensures r.Err? ==> pos == old(pos)
    {
      var res := U8(Rest());
      if res.Ok? {
        pos := pos + 1;
        r := Ok(res.value.value);
      } else {
        r := Err(res.error);
      }
    }

    method GetU16() returns (r: GDResult<u16>)
      modifies this
      ensures r == ValueOf(U16(old(Rest())))
      ensures r.Ok? ==> Rest() == U16(old(Rest())).value.rest
      ensures r.Err? ==> pos == old(pos)
    {
      var res := U16(Rest());
      if res.Ok? {
        pos := pos + 2;
        r := Ok(res.value.value);
      } else {
        r := Err(res.error);
      }
    }

    method GetU32() returns (r: GDResult<u32>)
      modifies this
      ensures r == ValueOf(U32(old(Rest())))
      ensures r.Ok? ==> Rest() == U32(old(Rest())).value.rest
      ensures r.Err? ==> pos == old(pos)
    {
      var res := U32(Rest());
      if res.Ok? {
        pos := pos + 4;
        r := Ok(res.value.value);
      } else {
        r := Err(res.error);
      }
    }

    /** A 32-bit float, carried as its raw little-endian bit pattern. */
    method GetF32Bits() returns (r: GDResult<u32>)
      modifies this
      ensures r == ValueOf(U32(old(Rest())))
      ensures r.Ok? ==> Rest() == U32(old(Rest())).value.rest
      ensures r.Err? ==> pos == old(pos)
    {
      r := GetU32();
    }

    method GetU64() returns (r: GDResult<u64>)
      modifies this
      ensures r == ValueOf(U64(old(Rest())))
      ensures r.Ok? ==> Rest() == U64(old(Rest())).value.rest
      ensures r.Err? ==> pos == old(pos)
    {
      var res := U64(Rest());
      if res.Ok? {
        pos := pos + 8;
        r := Ok(res.value.value);
      } else {
        r := Err(res.error);
      }
    }

    method GetStringUtf8() returns (r: GDResult<seq<byte>>)
      modifies this
      ensures r == ValueOf(Utf8String(old(Rest())))
      ensures r.Ok? ==> Rest() == Utf8String(old(Rest())).value.rest
      ensures r.Err? ==> pos == old(pos)
    {
      var res := Utf8String(Rest());
      if res.Ok? {
        pos := pos + |res.value.value| + 1;
        r := Ok(res.value.value);
      } else {
        r := Err(res.error);
      }
    }

    method MoveAhead(n: nat)
      modifies this
      ensures pos == old(pos) + n
      ensures n == 1 ==> Rest() == Skip1(old(Rest()))
    {
      pos := pos + n;
    }

    method MoveBackward(n: nat)
      requires n <= pos
      modifies this
      ensures pos == old(pos) - n
    {
      pos := pos - n;
    }
  }
}
