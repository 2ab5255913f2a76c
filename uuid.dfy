/**
 * The UUID half of uuidv47/src/main.rs: a 16-byte UUID with its version and
 * variant fields (RFC 9562, sections 4.1 and 4.2), the canonical 8-4-4-4-12
 * text form, the 48-bit big-endian timestamp helpers and `craft_v7`
 * (RFC 9562, section 5.7).
 *
 * Operations the source performs in place on `[u8; 16]` are methods on an
 * `array<bv8>` of length 16; each is specified by a function on the byte
 * sequence, and the lemmas are about those functions.
 */
module Uuid {
  import opened Wrappers
  import Text

  /** The sixteen bytes of a UUID, most significant first (`Uuid128::bytes`). */
  type Bytes16 = s: seq<bv8> | |s| == 16 witness [0, 0, 0, 0, 0, 0, 0, 0, 0, 0, 0, 0, 0, 0, 0, 0]

  /** `ParseError`. */
  datatype ParseError = InvalidLength | InvalidFormat | InvalidHexChar

  // ---------------------------------------------------------------- version and variant

  /** `version()`: the high nibble of byte 6. */
  function Version(u: Bytes16): (v: bv8)
    ensures v < 16
  {
    (u[6] >> 4) & 0x0F
  }

  /** The RFC 4122 / RFC 9562 variant: the top two bits of byte 8 are `10`. */
  predicate HasRfcVariant(u: Bytes16)
  {
    u[8] & 0xC0 == 0x80
  }

  /** The bytes after `set_version(ver)`. */
  function WithVersion(u: Bytes16, ver: bv8): (r: Bytes16)
    ensures Version(r) == ver & 0x0F
    ensures r[6] & 0x0F == u[6] & 0x0F
    ensures forall i :: 0 <= i < 16 && i != 6 ==> r[i] == u[i]
  {
    u[6 := (u[6] & 0x0F) | ((ver & 0x0F) << 4)]
  }

  /** The bytes after `set_variant_rfc4122()`. */
  function WithRfcVariant(u: Bytes16): (r: Bytes16)
    ensures HasRfcVariant(r)
    ensures r[8] & 0x3F == u[8] & 0x3F
    ensures forall i :: 0 <= i < 16 && i != 8 ==> r[i] == u[i]
  {
    u[8 := (u[8] & 0x3F) | 0x80]
  }

  /** `set_version`: rewrites byte 6 in place. */
  method SetVersion(a: array<bv8>, ver: bv8)
    requires a.Length == 16
    modifies a
    ensures a[..] == WithVersion(old(a[..]), ver)
  {
    a[6] := (a[6] & 0x0F) | ((ver & 0x0F) << 4);
  }

  /** `set_variant_rfc4122`: rewrites byte 8 in place. */
  method SetVariantRfc4122(a: array<bv8>)
    requires a.Length == 16
    modifies a
    ensures a[..] == WithRfcVariant(old(a[..]))
  {
    a[8] := (a[8] & 0x3F) | 0x80;
  }

  /** Setting the version and then the variant leaves exactly the 122 other bits alone. */
  lemma VersionVariantKeepOtherBits(u: Bytes16, ver: bv8)
    ensures var r := WithRfcVariant(WithVersion(u, ver));
      && Version(r) == ver & 0x0F && HasRfcVariant(r)
      && r[6] & 0x0F == u[6] & 0x0F && r[8] & 0x3F == u[8] & 0x3F
      && forall i :: 0 <= i < 16 && i != 6 && i != 8 ==> r[i] == u[i]
  {
  }

  // ---------------------------------------------------------------- 48-bit big-endian

  /** The 48-bit mask `0x0000_FFFF_FFFF_FFFF`. */
  const Mask48: bv64 := 0x0000_FFFF_FFFF_FFFF

  /** The six bytes `write_48be` stores: bits 47..40 first, bits 7..0 last (`as u8` keeps the low byte). */
  function Be48Bytes(v: bv64): (r: seq<bv8>)
    ensures |r| == 6
  {
    [((v >> 40) & 0xFF) as bv8, ((v >> 32) & 0xFF) as bv8, ((v >> 24) & 0xFF) as bv8,
     ((v >> 16) & 0xFF) as bv8, ((v >> 8) & 0xFF) as bv8, (v & 0xFF) as bv8]
  }

  /** `read_48be` on the first six bytes of `src`. */
  function Read48BE(src: seq<bv8>): (r: bv64)
    requires |src| >= 6
    ensures r <= Mask48
  {
    ((src[0] as bv64) << 40) | ((src[1] as bv64) << 32) | ((src[2] as bv64) << 24)
    | ((src[3] as bv64) << 16) | ((src[4] as bv64) << 8) | (src[5] as bv64)
  }

  /** `write_48be(&mut bytes[0..6], v48)`: overwrites the first six bytes of `dst`. */
  method Write48BE(dst: array<bv8>, v48: bv64)
    requires dst.Length >= 6
    modifies dst
    ensures dst[..] == Be48Bytes(v48) + old(dst[6..])
  {
    var bytes := Be48Bytes(v48);
    dst[0] := bytes[0];
    dst[1] := bytes[1];
    dst[2] := bytes[2];
    dst[3] := bytes[3];
    dst[4] := bytes[4];
    dst[5] := bytes[5];
    assert dst[..6] == bytes;
    assert dst[..] == dst[..6] + dst[6..];
  }

  /** Reading back what was written gives the value, for every value that fits in 48 bits. */
  lemma Be48RoundTrip(v: bv64)
    requires v <= Mask48
    ensures Read48BE(Be48Bytes(v)) == v
  {
  }

  /** Writing what was read gives the bytes back. */
  lemma Be48Inverse(s: seq<bv8>)
    requires |s| == 6
    ensures Be48Bytes(Read48BE(s)) == s
  {
  }

  /** The value written is only ever seen through its low 48 bits. */
  lemma Be48BytesLow48(v: bv64)
    ensures Be48Bytes(v) == Be48Bytes(v & Mask48)
  {
  }

  // ---------------------------------------------------------------- craft_v7

  /** The 62-bit mask `(1 << 62) - 1`. */
  const Mask62: bv64 := 0x3FFF_FFFF_FFFF_FFFF

  /** The shift `8 * (6 - i)` of the `rand_b` loop, for `i` in `0..7`. */
  function ByteShift(i: nat): bv64
    requires i < 7
  {
    match i
    case 0 => 48
    case 1 => 40
    case 2 => 32
    case 3 => 24
    case 4 => 16
    case 5 => 8
    case _ => 0
  }

  /** Byte `9 + i` of a crafted UUID: byte `6 - i` of `rand_b`, counting from the least significant. */
  function RandBByte(b: bv64, i: nat): bv8
    requires i < 7
  {
    ((b >> ByteShift(i)) & 0xFF) as bv8
  }

  /** Bytes 9..15 of a crafted UUID: the low 56 bits of `rand_b`, most significant first. */
  function RandBBytes(b: bv64): (r: seq<bv8>)
    ensures |r| == 7
  {
    seq(7, i requires 0 <= i < 7 => RandBByte(b, i))
  }

  /** The UUID `craft_v7(ts_ms_48, rand_a_12, rand_b_62)` returns: the masked timestamp in bytes
      0..5, version 7 over the top 4 bits of `rand_a`, the low byte of `rand_a`, the variant over
      the top 6 bits of `rand_b`, the rest of `rand_b`. */
  function CraftSpec(ts: bv64, ra: bv16, rb: bv64): Bytes16
  {
    var b := rb & Mask62;
    Be48Bytes(ts & Mask48)
    + [0x70 | (((ra >> 8) as bv8) & 0x0F), (ra & 0xFF) as bv8, 0x80 | (((b >> 56) as bv8) & 0x3F)]
    + RandBBytes(b)
  }

  /** The 12-bit `rand_a` field of RFC 9562, section 5.7: the low nibble of byte 6 and byte 7. */
  function RandA(u: Bytes16): (r: bv16)
    ensures r <= 0x0FFF
  {
    (((u[6] & 0x0F) as bv16) << 8) | (u[7] as bv16)
  }

  /** The 62-bit `rand_b` field: the low 6 bits of byte 8 and bytes 9..15. */
  function RandB(u: Bytes16): (r: bv64)
    ensures r <= Mask62
  {
    (((u[8] & 0x3F) as bv64) << 56) | ((u[9] as bv64) << 48) | ((u[10] as bv64) << 40)
    | ((u[11] as bv64) << 32) | ((u[12] as bv64) << 24) | ((u[13] as bv64) << 16)
    | ((u[14] as bv64) << 8) | (u[15] as bv64)
  }

  /** `craft_v7`, writing into a zeroed buffer in the source's order. */
  method CraftV7(tsMs48: bv64, randA12: bv16, randB62: bv64) returns (u: Bytes16)
    ensures u == CraftSpec(tsMs48, randA12, randB62)
  {
    var a := new bv8[16](_ => 0);
    assert a[..] == Zeros16;
    var randB := CraftHeadInto(a, tsMs48, randA12, randB62);
    ghost var head := a[..9];
    ghost var tail := RandBBytes(randB);
    for i := 0 to 7
      invariant a[..9] == head
      invariant a[9..9 + i] == tail[..i]
    {
      a[9 + i] := RandBByte(randB, i);
      assert a[9..9 + i + 1] == a[9..9 + i] + [tail[i]];
    }
    assert a[9..] == tail by {
      assert a[9..] == a[9..9 + 7] && tail[..7] == tail;
    }
    u := a[..];
    assert u == a[..9] + a[9..];
  }

  const Zeros16: Bytes16 := [0, 0, 0, 0, 0, 0, 0, 0, 0, 0, 0, 0, 0, 0, 0, 0]

  /** The statements of `craft_v7` before the `rand_b` loop: timestamp, version, `rand_a`, variant
      and the top six bits of `rand_b`, written into the zeroed buffer. Returns the masked
      `rand_b`. */
  method CraftHeadInto(a: array<bv8>, tsMs48: bv64, randA12: bv16, randB62: bv64) returns (randB: bv64)
    requires a.Length == 16 && a[..] == Zeros16
    modifies a
    ensures randB == randB62 & Mask62
    ensures a[..9] == CraftSpec(tsMs48, randA12, randB62)[..9]
  {
    var ts := tsMs48 & Mask48;
    Write48BE(a, ts);
    ghost var prefix := Be48Bytes(ts);
    assert a[..6] == prefix && a[6] == 0 && a[8] == 0 by {
      assert a[..] == prefix + Zeros16[6..];
    }
    SetVersion(a, 7);
    assert a[..6] == prefix && a[6] == 0x70 && a[8] == 0;
    a[6] := RandAHighInto(a[6], randA12);
    a[7] := RandALow(randA12);
    SetVariantRfc4122(a);
    assert a[..6] == prefix && a[6] == RandAHighInto(0x70, randA12) && a[7] == RandALow(randA12);
    assert a[8] == 0x80;
    randB := randB62 & Mask62;
    a[8] := RandBHighInto(a[8], randB);
    assert a[..9] == prefix + [RandAHighInto(0x70, randA12), RandALow(randA12), RandBHighInto(0x80, randB)];
    CraftSpecHead(tsMs48, randA12, randB62);
  }

  /** `(b & 0xF0) | ((rand_a_12 >> 8) as u8 & 0x0F)`: the top nibble of `rand_a` below the version. */
  function RandAHighInto(b: bv8, ra: bv16): bv8
  {
    (b & 0xF0) | (((ra >> 8) as bv8) & 0x0F)
  }

  /** `(rand_a_12 & 0xFF) as u8`. */
  function RandALow(ra: bv16): bv8
  {
    (ra & 0xFF) as bv8
  }

  /** `(b & 0xC0) | ((rand_b >> 56) as u8 & 0x3F)`: the top six bits of `rand_b` below the variant. */
  function RandBHighInto(b: bv8, rb: bv64): bv8
  {
    (b & 0xC0) | (((rb >> 56) as bv8) & 0x3F)
  }

  /** Bytes 0..8 of the crafted UUID. */
  lemma CraftSpecHead(ts: bv64, ra: bv16, rb: bv64)
    ensures CraftSpec(ts, ra, rb)[..9] == Be48Bytes(ts & Mask48)
      + [RandAHighInto(0x70, ra), RandALow(ra), RandBHighInto(0x80, rb & Mask62)]
  {
    var x := Be48Bytes(ts & Mask48);
    var y := [0x70 | (((ra >> 8) as bv8) & 0x0F), (ra & 0xFF) as bv8, 0x80 | ((((rb & Mask62) >> 56) as bv8) & 0x3F)];
    assert CraftSpec(ts, ra, rb)[..9] == x + y;
  }

  /** Every crafted UUID is a version 7, RFC-variant UUID that carries the timestamp and both
      random fields, each cut to its width. */
  lemma CraftFields(ts: bv64, ra: bv16, rb: bv64)
    ensures var u := CraftSpec(ts, ra, rb);
      && Version(u) == 7 && HasRfcVariant(u)
      && Read48BE(u) == ts & Mask48
      && RandA(u) == ra & 0x0FFF
      && RandB(u) == rb & Mask62
  {
  }

  /** Conversely, every version 7, RFC-variant UUID is what `craft_v7` builds from its own fields. */
  lemma CraftFromFields(u: Bytes16)
    requires Version(u) == 7 && HasRfcVariant(u)
    ensures CraftSpec(Read48BE(u), RandA(u), RandB(u)) == u
  {
    var c := CraftSpec(Read48BE(u), RandA(u), RandB(u));
    CraftHeadFromFields(u);
    CraftTailFromFields(u);
    assert c == c[..9] + c[9..];
    assert u == u[..9] + u[9..];
  }

  /** Bytes 0..8: the timestamp, the version over `rand_a`, the variant over the top of `rand_b`. */
  lemma CraftHeadFromFields(u: Bytes16)
    requires Version(u) == 7 && HasRfcVariant(u)
    ensures CraftSpec(Read48BE(u), RandA(u), RandB(u))[..9] == u[..9]
  {
    var c := CraftSpec(Read48BE(u), RandA(u), RandB(u));
    CraftPrefixAgrees(u);
    CraftByte6Agrees(u);
    CraftByte7Agrees(u);
    CraftByte8Agrees(u);
    assert c[..9] == c[..6] + [c[6], c[7], c[8]];
    assert u[..9] == u[..6] + [u[6], u[7], u[8]];
  }

  lemma CraftPrefixAgrees(u: Bytes16)
    ensures CraftSpec(Read48BE(u), RandA(u), RandB(u))[..6] == u[..6]
  {
    TimestampBytesOf(u);
    CraftSpecBytes(Read48BE(u), RandA(u), RandB(u));
  }

  lemma CraftByte6Agrees(u: Bytes16)
    requires Version(u) == 7
    ensures CraftSpec(Read48BE(u), RandA(u), RandB(u))[6] == u[6]
  {
    CraftByte6(u);
    CraftSpecBytes(Read48BE(u), RandA(u), RandB(u));
  }

  lemma CraftByte7Agrees(u: Bytes16)
    ensures CraftSpec(Read48BE(u), RandA(u), RandB(u))[7] == u[7]
  {
    CraftByte7(u);
    CraftSpecBytes(Read48BE(u), RandA(u), RandB(u));
  }

  lemma CraftByte8Agrees(u: Bytes16)
    requires HasRfcVariant(u)
    ensures CraftSpec(Read48BE(u), RandA(u), RandB(u))[8] == u[8]
  {
    CraftByte8(u);
    CraftSpecBytes(Read48BE(u), RandA(u), RandB(u));
  }

  /** Bytes 0..8 of the crafted UUID, one by one. */
  lemma CraftSpecBytes(ts: bv64, ra: bv16, rb: bv64)
    ensures var c := CraftSpec(ts, ra, rb);
      && c[..6] == Be48Bytes(ts & Mask48)
      && c[6] == RandAHighInto(0x70, ra) && c[7] == RandALow(ra)
      && c[8] == RandBHighInto(0x80, rb & Mask62)
  {
    CraftSpecHead(ts, ra, rb);
    var c := CraftSpec(ts, ra, rb);
    assert c[..6] == c[..9][..6];
  }

  /** Bytes 9..15: the rest of `rand_b`. */
  lemma CraftTailFromFields(u: Bytes16)
    ensures CraftSpec(Read48BE(u), RandA(u), RandB(u))[9..] == u[9..]
  {
    RandBBytesOf(u);
    CraftSpecTail(Read48BE(u), RandA(u), RandB(u));
  }

  /** Bytes 9..15 of the crafted UUID. */
  lemma CraftSpecTail(ts: bv64, ra: bv16, rb: bv64)
    ensures CraftSpec(ts, ra, rb)[9..] == RandBBytes(rb & Mask62)
  {
  }

  /** Bytes 0..5 are the timestamp. */
  lemma TimestampBytesOf(u: Bytes16)
    ensures Be48Bytes(Read48BE(u) & Mask48) == u[..6]
  {
    Be48Inverse(u[..6]);
    Read48BEPrefix(u);
  }

  /** Bytes 9..15 are the 56 low bits of `rand_b`. */
  lemma RandBBytesOf(u: Bytes16)
    ensures RandBBytes(RandB(u) & Mask62) == u[9..]
  {
    forall i | 0 <= i < 7
      ensures RandBBytes(RandB(u) & Mask62)[i] == u[9..][i]
    {
      RandBByteOf(u, i);
    }
  }

  /** `read_48be` looks at the first six bytes only, and its value already fits in 48 bits. */
  lemma Read48BEPrefix(u: Bytes16)
    ensures Read48BE(u[..6]) == Read48BE(u) == Read48BE(u) & Mask48
  {
  }

  /** Byte 6 of a version 7 UUID is the version nibble over the top nibble of `rand_a`. */
  lemma CraftByte6(u: Bytes16)
    requires Version(u) == 7
    ensures RandAHighInto(0x70, RandA(u)) == u[6]
  {
  }

  /** Byte 7 is the low byte of `rand_a`. */
  lemma CraftByte7(u: Bytes16)
    ensures RandALow(RandA(u)) == u[7]
  {
  }

  /** Byte 8 of an RFC-variant UUID is the variant bits over the top six bits of `rand_b`. */
  lemma CraftByte8(u: Bytes16)
    requires HasRfcVariant(u)
    ensures RandBHighInto(0x80, RandB(u) & Mask62) == u[8]
  {
  }

  /** Byte `9 + i` is byte `i` of the 56 low bits of `rand_b`, most significant first. */
  lemma RandBByteOf(u: Bytes16, i: nat)
    requires i < 7
    ensures RandBByte(RandB(u) & Mask62, i) == u[9 + i]
  {
    match i
    case 0 => assert ByteShift(0) == 48;
    case 1 => assert ByteShift(1) == 40;
    case 2 => assert ByteShift(2) == 32;
    case 3 => assert ByteShift(3) == 24;
    case 4 => assert ByteShift(4) == 16;
    case 5 => assert ByteShift(5) == 8;
    case 6 => assert ByteShift(6) == 0;
  }

  // ---------------------------------------------------------------- hex digits

  /** The hex digits the parser accepts, in either case. */
  predicate IsHexChar(c: char)
  {
    '0' <= c <= '9' || 'a' <= c <= 'f' || 'A' <= c <= 'F'
  }

  /** `hex_char_to_nibble`. */
  function HexCharToNibble(c: char): (r: Result<bv8, ParseError>)
    ensures r.Ok? <==> IsHexChar(c)
    ensures r.Ok? ==> r.value < 16
    ensures r.Err? ==> r.error == InvalidHexChar
  {
    if '0' <= c <= '9' then Ok((c as int - '0' as int) as bv8)
    else if 'a' <= c <= 'f' then Ok((c as int - 'a' as int + 10) as bv8)
    else if 'A' <= c <= 'F' then Ok((c as int - 'A' as int + 10) as bv8)
    else Err(InvalidHexChar)
  }

  /** Hex digits are read case-insensitively. */
  lemma HexCharCaseInsensitive(c: char)
    requires 'a' <= c <= 'f'
    ensures HexCharToNibble(Text.ToAsciiUpper(c)) == HexCharToNibble(c)
  {
  }

  /** The lowercase digit `{:x}` writes for a nibble. */
  function HexDigit(n: bv8): (c: char)
    requires n < 16
    ensures '0' <= c <= '9' || 'a' <= c <= 'f'
  {
    if n < 10 then ('0' as int + n as int) as char else ('a' as int + n as int - 10) as char
  }

  /** Reading a written digit gives the nibble back. */
  lemma HexDigitRoundTrip(n: bv8)
    requires n < 16
    ensures HexCharToNibble(HexDigit(n)) == Ok(n)
  {
  }

  // ---------------------------------------------------------------- canonical text

  /** `{:02x}` of one byte: two lowercase hex digits, high nibble first. */
  function Hex2(b: bv8): string
  {
    [HexDigit(b >> 4), HexDigit(b & 0x0F)]
  }

  /** Bytes 4, 6, 8 and 10 open a new group, so a dash comes before their digits. */
  predicate DashBefore(i: nat)
  {
    i == 4 || i == 6 || i == 8 || i == 10
  }

  /** The dashes of the canonical form sit at character positions 8, 13, 18 and 23. */
  predicate IsDashPos(p: nat)
  {
    p == 8 || p == 13 || p == 18 || p == 23
  }

  /** Character position of the high digit of byte `i` in the canonical form. */
  function HexPos(i: nat): (p: nat)
    ensures !IsDashPos(p) && !IsDashPos(p + 1)
  {
    2 * i + (if i < 4 then 0 else if i < 6 then 1 else if i < 8 then 2 else if i < 10 then 3 else 4)
  }

  /** Character position where the text of byte `i`, with the dash before it if any, begins. */
  function TextStart(i: nat): nat
  {
    HexPos(i) - (if DashBefore(i) then 1 else 0)
  }

  /** The format string of `format()` from byte `i` on: `{:02x}` for every byte, with a `-`
      before bytes 4, 6, 8 and 10. */
  function FormatFrom(u: Bytes16, i: nat): (r: string)
    requires i <= 16
    ensures |r| == 36 - TextStart(i)
    decreases 16 - i
  {
    if i == 16 then [] else (if DashBefore(i) then "-" else "") + Hex2(u[i]) + FormatFrom(u, i + 1)
  }

  /** The text of byte `i + 1` begins right after the two digits of byte `i`, and the text of
      every later byte no earlier. */
  lemma TextStep(i: nat, k: nat)
    requires i < k < 16
    ensures TextStart(i + 1) == TextStart(i) + (if DashBefore(i) then 3 else 2)
    ensures TextStart(i + 1) <= TextStart(k) && HexPos(k) == TextStart(k) + (if DashBefore(k) then 1 else 0)
  {
  }

  /** `format()`: the 8-4-4-4-12 canonical text. */
  function Format(u: Bytes16): string
  {
    FormatFrom(u, 0)
  }

  /** In the text from byte `i` on, the two digits of byte `k` sit where `HexPos(k)` says. */
  predicate DigitsAt(u: Bytes16, i: nat, k: nat)
    requires i <= k < 16
  {
    FormatFrom(u, i)[HexPos(k) - TextStart(i)] == Hex2(u[k])[0]
    && FormatFrom(u, i)[HexPos(k) - TextStart(i) + 1] == Hex2(u[k])[1]
  }

  /** Byte `k` is written as its two digits at `HexPos(k)`. */
  lemma {:induction false} FormatFromAt(u: Bytes16, i: nat, k: nat)
    requires i <= k < 16
    ensures DigitsAt(u, i, k)
    decreases k - i
  {
    if i < k {
      FormatFromAt(u, i + 1, k);
      FormatFromAtStep(u, i, k);
    } else {
      FormatFromAtBase(u, k);
    }
  }

  lemma FormatFromAtBase(u: Bytes16, k: nat)
    requires k < 16
    ensures DigitsAt(u, k, k)
  {
  }

  lemma FormatFromAtStep(u: Bytes16, i: nat, k: nat)
    requires i < k < 16
    requires DigitsAt(u, i + 1, k)
    ensures DigitsAt(u, i, k)
  {
    TextStep(i, k);
  }

  /** In the text from byte `i` on, the character just ahead of the digits of byte `j` is a dash. */
  predicate DashAt(u: Bytes16, i: nat, j: nat)
    requires i <= j < 16
  {
    FormatFrom(u, i)[TextStart(j) - TextStart(i)] == '-'
  }

  lemma {:induction false} FormatFromDash(u: Bytes16, i: nat, j: nat)
    requires i <= j < 16 && DashBefore(j)
    ensures DashAt(u, i, j)
    decreases j - i
  {
    if i < j {
      FormatFromDash(u, i + 1, j);
      FormatFromDashStep(u, i, j);
    }
  }

  lemma FormatFromDashStep(u: Bytes16, i: nat, j: nat)
    requires i < j < 16
    requires DashAt(u, i + 1, j)
    ensures DashAt(u, i, j)
  {
    TextStep(i, j);
  }

  /** The byte whose digits occupy character position `p`. */
  function DigitByte(p: nat): (k: nat)
    requires p < 36 && !IsDashPos(p)
    ensures k < 16 && (p == HexPos(k) || p == HexPos(k) + 1)
  {
    if p < 8 then p / 2
    else if p < 13 then 4 + (p - 9) / 2
    else if p < 18 then 6 + (p - 14) / 2
    else if p < 23 then 8 + (p - 19) / 2
    else 10 + (p - 24) / 2
  }

  /** The dashes of `format()` are at 8, 13, 18 and 23. */
  lemma FormatDashes(u: Bytes16)
    ensures forall p :: 0 <= p < 36 && IsDashPos(p) ==> Format(u)[p] == '-'
  {
    FormatFromDash(u, 0, 4);
    FormatFromDash(u, 0, 6);
    FormatFromDash(u, 0, 8);
    FormatFromDash(u, 0, 10);
  }

  /** Byte `i` is written as the two lowercase digits at `HexPos(i)`. */
  lemma FormatBytes(u: Bytes16)
    ensures forall i :: 0 <= i < 16 ==>
      Format(u)[HexPos(i)] == HexDigit(u[i] >> 4) && Format(u)[HexPos(i) + 1] == HexDigit(u[i] & 0x0F)
  {
    forall i | 0 <= i < 16
      ensures Format(u)[HexPos(i)] == HexDigit(u[i] >> 4) && Format(u)[HexPos(i) + 1] == HexDigit(u[i] & 0x0F)
    {
      FormatFromAt(u, 0, i);
    }
  }

  /** Every other position of `format()` holds a lowercase hex digit. */
  lemma FormatDigits(u: Bytes16)
    ensures forall p :: 0 <= p < 36 && !IsDashPos(p) ==> '0' <= Format(u)[p] <= '9' || 'a' <= Format(u)[p] <= 'f'
  {
    forall p | 0 <= p < 36 && !IsDashPos(p)
      ensures '0' <= Format(u)[p] <= '9' || 'a' <= Format(u)[p] <= 'f'
    {
      FormatDigitAt(u, p);
    }
  }

  lemma FormatDigitAt(u: Bytes16, p: nat)
    requires p < 36 && !IsDashPos(p)
    ensures '0' <= Format(u)[p] <= '9' || 'a' <= Format(u)[p] <= 'f'
  {
    var k := DigitByte(p);
    FormatFromAt(u, 0, k);
    var h := Hex2(u[k]);
    assert Format(u)[p] == h[0] || Format(u)[p] == h[1];
  }

  // ---------------------------------------------------------------- parsing

  /** `s.chars().nth(p)`. */
  function CharAt(s: string, p: nat): Option<char>
  {
    if p < |s| then Some(s[p]) else None
  }

  /** The error the parser reports when it reaches position `p`, if any: `InvalidFormat` when the
      position is past the last character or a dash position lacks its dash, `InvalidHexChar`
      when another position does not hold a hex digit. */
  function ErrorAt(s: string, p: nat): Option<ParseError>
  {
    match CharAt(s, p)
    case None => Some(InvalidFormat)
    case Some(c) =>
      if IsDashPos(p) then (if c == '-' then None else Some(InvalidFormat))
      else if IsHexChar(c) then None
      else Some(InvalidHexChar)
  }

  /** The first error among the positions `p` .. 35, visited in order. */
  function FirstError(s: string, p: nat): Option<ParseError>
    decreases 36 - p
  {
    if p >= 36 then None
    else if ErrorAt(s, p).Some? then ErrorAt(s, p)
    else FirstError(s, p + 1)
  }

  /** The byte whose two hex digits start at position `p`. */
  function ByteAt(s: string, p: nat): bv8
  {
    if p + 1 < |s| then
      match (HexCharToNibble(s[p]), HexCharToNibble(s[p + 1]))
      case (Ok(high), Ok(low)) => (high << 4) | low
      case _ => 0
    else 0
  }

  /** What `parse` returns: `InvalidLength` unless the UTF-8 length is 36, then the first
      error in position order, and otherwise the sixteen bytes the digit pairs denote. */
  function ParseSpec(s: string): Result<Bytes16, ParseError>
  {
    if Text.Utf8Len(s) != 36 then Err(InvalidLength)
    else match FirstError(s, 0)
      case Some(e) => Err(e)
      case None => Ok(ParsedBytes(s))
  }

  /** The sixteen bytes the digit pairs of `s` denote. */
  function ParsedBytes(s: string): (r: Bytes16)
    ensures forall i :: 0 <= i < 16 ==> r[i] == ByteAt(s, HexPos(i))
  {
    seq(16, i requires 0 <= i < 16 => ByteAt(s, HexPos(i)))
  }

  lemma {:induction false} NoErrorBefore(s: string, p: nat, q: nat)
    requires p <= q <= 36
    requires forall k :: p <= k < q ==> ErrorAt(s, k).None?
    ensures FirstError(s, p) == FirstError(s, q)
    decreases q - p
  {
    if p < q {
      NoErrorBefore(s, p + 1, q);
    }
  }

  lemma {:induction false} FirstErrorNone(s: string, p: nat)
    requires p <= 36
    requires FirstError(s, p).None?
    ensures forall k :: p <= k < 36 ==> ErrorAt(s, k).None?
    decreases 36 - p
  {
    if p < 36 {
      FirstErrorNone(s, p + 1);
    }
  }

  /** Group `g` of the canonical form: the text position where it starts and the bytes it holds. */
  function GroupStart(g: nat): nat
  {
    if g == 0 then 0 else if g == 1 then 9 else if g == 2 then 14 else if g == 3 then 19 else 24
  }

  function GroupFirstByte(g: nat): nat
  {
    if g == 0 then 0 else if g == 1 then 4 else if g == 2 then 6 else if g == 3 then 8 else 10
  }

  function GroupEndByte(g: nat): nat
  {
    if g == 0 then 4 else if g == 1 then 6 else if g == 2 then 8 else if g == 3 then 10 else 16
  }

  function GroupEnd(g: nat): nat
  {
    if g == 0 then 8 else if g == 1 then 13 else if g == 2 then 18 else if g == 3 then 23 else 36
  }

  /** Reads the digit pair at `charIdx` as in the loop bodies of `parse`, or reports the error. */
  method ReadPair(s: string, charIdx: nat) returns (r: Result<bv8, ParseError>)
    ensures r.Err? <==> ErrorAt(s, charIdx).Some? || ErrorAt(s, charIdx + 1).Some?
    ensures r.Err? ==> r.error == (if ErrorAt(s, charIdx).Some? then ErrorAt(s, charIdx) else ErrorAt(s, charIdx + 1)).value
    ensures r.Ok? ==> r.value == ByteAt(s, charIdx)
    requires !IsDashPos(charIdx) && !IsDashPos(charIdx + 1)
  {
    var c0 := CharAt(s, charIdx);
    if c0.None? {
      return Err(InvalidFormat);
    }
    var high := HexCharToNibble(c0.value);
    if high.Err? {
      return Err(high.error);
    }
    var c1 := CharAt(s, charIdx + 1);
    if c1.None? {
      return Err(InvalidFormat);
    }
    var low := HexCharToNibble(c1.value);
    if low.Err? {
      return Err(low.error);
    }
    r := Ok((high.value << 4) | low.value);
  }

  /** One `while char_idx < ...` loop of `parse`: the digit pairs of group `g`, stored from
      byte `byteIdx0` on, stopping at the first error. */
  method ReadDigits(s: string, bytes: array<bv8>, charIdx0: nat, byteIdx0: nat, stop: nat, ghost g: nat)
      returns (err: Option<ParseError>, charIdx: nat, byteIdx: nat)
    requires bytes.Length == 16 && g <= 4
    requires charIdx0 == GroupStart(g) && byteIdx0 == GroupFirstByte(g) && stop == GroupEnd(g)
    requires forall k :: 0 <= k < charIdx0 ==> ErrorAt(s, k).None?
    requires forall i :: 0 <= i < byteIdx0 ==> bytes[i] == ParsedBytes(s)[i]
    modifies bytes
    ensures err.Some? ==> err == FirstError(s, 0)
    ensures err.None? ==> charIdx == stop && byteIdx == GroupEndByte(g)
    ensures err.None? ==> forall k :: 0 <= k < charIdx ==> ErrorAt(s, k).None?
    ensures err.None? ==> forall i :: 0 <= i < byteIdx ==> bytes[i] == ParsedBytes(s)[i]
  {
    charIdx, byteIdx := charIdx0, byteIdx0;
    while charIdx < stop
      invariant GroupFirstByte(g) <= byteIdx <= GroupEndByte(g)
      invariant charIdx == GroupStart(g) + 2 * (byteIdx - GroupFirstByte(g)) <= stop
      invariant forall k :: 0 <= k < charIdx ==> ErrorAt(s, k).None?
      invariant forall i :: 0 <= i < byteIdx ==> bytes[i] == ParsedBytes(s)[i]
      decreases stop - charIdx
    {
      // the source's `byte_idx >= 16` guard cannot fire
      assert byteIdx < 16 && charIdx == HexPos(byteIdx);
      var pair := ReadPair(s, charIdx);
      if pair.Err? {
        ghost var at := if ErrorAt(s, charIdx).Some? then charIdx else charIdx + 1;
        NoErrorBefore(s, 0, at);
        return Some(pair.error), charIdx, byteIdx;
      }
      bytes[byteIdx] := pair.value;
      byteIdx := byteIdx + 1;
      charIdx := charIdx + 2;
    }
    err := None;
  }

  /** `parse`: the length check, the four dash-terminated groups, the last group. */
  method Parse(s: string) returns (r: Result<Bytes16, ParseError>)
    ensures r == ParseSpec(s)
  {
    if Text.Utf8Len(s) != 36 {
      return Err(InvalidLength);
    }
    var bytes := new bv8[16];
    var byteIdx: nat := 0;
    var charIdx: nat := 0;
    var err: Option<ParseError>;
    var dashes := [8, 13, 18, 23];
    for g := 0 to 4
      invariant charIdx == GroupStart(g) && byteIdx == GroupFirstByte(g)
      invariant forall k :: 0 <= k < charIdx ==> ErrorAt(s, k).None?
      invariant forall i :: 0 <= i < byteIdx ==> bytes[i] == ParsedBytes(s)[i]
    {
      err, charIdx, byteIdx := ReadDigits(s, bytes, charIdx, byteIdx, dashes[g], g);
      if err.Some? {
        return Err(err.value);
      }
      if charIdx < 36 {
        if CharAt(s, charIdx) != Some('-') {
          NoErrorBefore(s, 0, charIdx);
          return Err(InvalidFormat);
        }
        charIdx := charIdx + 1;
      }
    }
    err, charIdx, byteIdx := ReadDigits(s, bytes, charIdx, byteIdx, 36, 4);
    if err.Some? {
      return Err(err.value);
    }
    NoErrorBefore(s, 0, 36);
    assert bytes[..] == ParsedBytes(s);
    r := Ok(bytes[..]);
  }

  /** `parse` rejects every text whose UTF-8 length is not 36. */
  lemma ParseRejectsLength(s: string)
    requires Text.Utf8Len(s) != 36
    ensures ParseSpec(s) == Err(InvalidLength)
  {
  }

  /** A 36-byte text with a wrong character at a dash position, and only hex digits and dashes
      where they belong before it, is rejected with `InvalidFormat`. */
  lemma ParseRejectsMissingDash(s: string, p: nat)
    requires Text.Utf8Len(s) == 36 && p < |s| && IsDashPos(p) && s[p] != '-'
    requires forall k :: 0 <= k < p ==> ErrorAt(s, k).None?
    ensures ParseSpec(s) == Err(InvalidFormat)
  {
    NoErrorBefore(s, 0, p);
  }

  /** The same for a non-hex character at a digit position: `InvalidHexChar`. */
  lemma ParseRejectsBadHex(s: string, p: nat)
    requires Text.Utf8Len(s) == 36 && p < |s| && p < 36 && !IsDashPos(p) && !IsHexChar(s[p])
    requires forall k :: 0 <= k < p ==> ErrorAt(s, k).None?
    ensures ParseSpec(s) == Err(InvalidHexChar)
  {
    NoErrorBefore(s, 0, p);
  }

  /** `parse(format(u)) == Ok(u)` for every UUID. */
  lemma ParseFormatRoundTrip(u: Bytes16)
    ensures ParseSpec(Format(u)) == Ok(u)
  {
    var f := Format(u);
    FormatAscii(u);
    FormatHasNoError(u);
    NoErrorBefore(f, 0, 36);
    FormatBytesRoundTrip(u);
  }

  /** The other direction of the text round trip: formatting what `parse` accepted gives the
      text back with its hex letters lowered, `format(parse(s)) == s.to_ascii_lowercase()`. */
  lemma FormatParseRoundTrip(s: string)
    requires ParseSpec(s).Ok?
    ensures Format(ParseSpec(s).value) == Text.LowerAscii(s)
  {
    FirstErrorNone(s, 0);
    assert ErrorAt(s, 35).None?;
    assert |s| == 36;
    var u := ParsedBytes(s);
    assert ParseSpec(s).value == u;
    var f := Format(u);
    var l := Text.LowerAscii(s);
    FormatDashes(u);
    FormatBytes(u);
    forall p | 0 <= p < 36 ensures f[p] == l[p] {
      assert ErrorAt(s, p).None?;
      if !IsDashPos(p) {
        var k := DigitByte(p);
        assert ErrorAt(s, HexPos(k)).None? && ErrorAt(s, HexPos(k) + 1).None?;
        ByteAtLowered(s, HexPos(k));
      }
    }
  }

  /** The digits `format()` writes for the byte of an accepted pair are that pair, lowered. */
  lemma ByteAtLowered(s: string, p: nat)
    requires p + 1 < |s| && IsHexChar(s[p]) && IsHexChar(s[p + 1])
    ensures HexDigit(ByteAt(s, p) >> 4) == Text.ToAsciiLower(s[p])
    ensures HexDigit(ByteAt(s, p) & 0x0F) == Text.ToAsciiLower(s[p + 1])
  {
    var high := HexCharToNibble(s[p]).value;
    var low := HexCharToNibble(s[p + 1]).value;
    assert ByteAt(s, p) == (high << 4) | low;
    assert ((high << 4) | low) >> 4 == high && ((high << 4) | low) & 0x0F == low;
    HexDigitLowered(s[p]);
    HexDigitLowered(s[p + 1]);
  }

  /** Writing the nibble of a hex character gives that character in lowercase. */
  lemma HexDigitLowered(c: char)
    requires IsHexChar(c)
    ensures HexDigit(HexCharToNibble(c).value) == Text.ToAsciiLower(c)
  {
    var n := HexCharToNibble(c).value;
    if '0' <= c <= '9' {
      assert n as int == c as int - '0' as int;
    } else if 'a' <= c <= 'f' {
      assert n as int == c as int - 'a' as int + 10;
    } else {
      assert n as int == c as int - 'A' as int + 10;
    }
  }

  /** The digit pairs of `format()` denote the bytes of the UUID. */
  lemma FormatBytesRoundTrip(u: Bytes16)
    ensures ParsedBytes(Format(u)) == u
  {
    forall i | 0 <= i < 16 ensures ParsedBytes(Format(u))[i] == u[i] {
      FormatByteRoundTrip(u, i);
    }
  }

  /** `format()` writes ASCII only, so its UTF-8 length is 36. */
  lemma FormatAscii(u: Bytes16)
    ensures Text.AllAscii(Format(u)) && Text.Utf8Len(Format(u)) == 36
  {
    FormatDashes(u);
    FormatDigits(u);
  }

  /** No position of `format()` makes the parser report an error. */
  lemma FormatHasNoError(u: Bytes16)
    ensures forall k :: 0 <= k < 36 ==> ErrorAt(Format(u), k).None?
  {
    FormatDashes(u);
    FormatDigits(u);
    forall k | 0 <= k < 36 ensures ErrorAt(Format(u), k).None? {
      if !IsDashPos(k) {
        assert IsHexChar(Format(u)[k]);
      }
    }
  }

  /** The digit pair of byte `i` in `format()` is read back as byte `i`. */
  lemma FormatByteRoundTrip(u: Bytes16, i: nat)
    requires i < 16
    ensures ByteAt(Format(u), HexPos(i)) == u[i]
  {
    FormatFromAt(u, 0, i);
    ByteAtDigits(Format(u), HexPos(i), u[i]);
  }

  /** The two digits `{:02x}` writes for `b` are read back as `b`. */
  lemma ByteAtDigits(s: string, p: nat, b: bv8)
    requires p + 1 < |s| && s[p] == Hex2(b)[0] && s[p + 1] == Hex2(b)[1]
    ensures ByteAt(s, p) == b
  {
    HexDigitRoundTrip(b >> 4);
    HexDigitRoundTrip(b & 0x0F);
    assert ((b >> 4) << 4) | (b & 0x0F) == b;
  }
}
