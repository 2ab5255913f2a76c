/**
 * The UUIDv7 / UUIDv4 facade codec of uuidv47/src/main.rs. The 48-bit
 * timestamp of a version 7 UUID is XORed with the low 48 bits of a keyed
 * SipHash-2-4 of the UUID's 74 random bits. Then the version is set to 4
 * (encode) or back to 7 (decode). The random bits are never touched, so both
 * directions compute the same mask.
 */
module Facade {
  import opened Uuid
  import Sip

  /** `Uuidv47Key`: the two SipHash key words. */
  datatype Key = Key(k0: bv64, k1: bv64)

  /** `build_sip_input`: the low nibble of byte 6, byte 7, the low 6 bits of byte 8, bytes 9..15. */
  function SipInput(u: Bytes16): (r: seq<bv8>)
    ensures |r| == 10
  {
    [u[6] & 0x0F, u[7], u[8] & 0x3F] + u[9..16]
  }

  /** Two UUIDs agree on the bits `build_sip_input` reads. */
  predicate SameRandomBits(u: Bytes16, v: Bytes16)
  {
    && u[6] & 0x0F == v[6] & 0x0F
    && u[7] == v[7]
    && u[8] & 0x3F == v[8] & 0x3F
    && u[9..] == v[9..]
  }

  /** `build_sip_input` reads exactly those bits: its result is the same for two UUIDs if and only
      if they agree on them. */
  lemma SipInputExactlyRandomBits(u: Bytes16, v: Bytes16)
    ensures SipInput(u) == SipInput(v) <==> SameRandomBits(u, v)
  {
    if SipInput(u) == SipInput(v) {
      assert SipInput(u)[0] == SipInput(v)[0] && SipInput(u)[2] == SipInput(v)[2];
      assert u[9..] == SipInput(u)[3..] && v[9..] == SipInput(v)[3..];
    }
  }

  /** The 48-bit XOR mask: `siphash24(build_sip_input(u), k0, k1) & 0x0000_FFFF_FFFF_FFFF`. */
  function TimestampMask(u: Bytes16, key: Key): bv64
  {
    Sip.SipHash(SipInput(u), key.k0, key.k1) & Mask48
  }

  /** The mask has at most 48 bits. */
  lemma TimestampMaskBound(u: Bytes16, key: Key)
    ensures TimestampMask(u, key) <= Mask48
  {
  }

  /** Bytes 0..5 replaced by the big-endian timestamp `ts`, as `write_48be(&mut out.bytes[0..6], ts)` does. */
  function WithTimestamp(u: Bytes16, ts: bv64): Bytes16
  {
    Be48Bytes(ts) + u[6..]
  }

  /** The last three steps of both directions: write the timestamp, set the version, set the variant. */
  function Stamp(u: Bytes16, ts: bv64, ver: bv8): Bytes16
  {
    WithRfcVariant(WithVersion(WithTimestamp(u, ts), ver))
  }

  /** Both directions for a given mask `m`: XOR `m` into the timestamp, then stamp version `ver`. */
  function Masked(u: Bytes16, m: bv64, ver: bv8): Bytes16
  {
    Stamp(u, Read48BE(u) ^ m, ver)
  }

  /** `encode_v4_facade(v7, key)`. */
  function EncodeSpec(v7: Bytes16, key: Key): Bytes16
  {
    Masked(v7, TimestampMask(v7, key), 4)
  }

  /** `decode_v4_facade(v4, key)`. */
  function DecodeSpec(v4: Bytes16, key: Key): Bytes16
  {
    Masked(v4, TimestampMask(v4, key), 7)
  }

  /** A copy of `u` in a fresh buffer, as `let mut out = v7;` makes one. */
  method CopyToArray(u: Bytes16) returns (a: array<bv8>)
    ensures fresh(a) && a[..] == u
  {
    a := new bv8[16](i requires 0 <= i < 16 => u[i]);
  }

  /** The rewriting of the copy that both directions share: `write_48be`, `set_version`, `set_variant_rfc4122`. */
  method Restamp(u: Bytes16, ts: bv64, ver: bv8) returns (out: Bytes16)
    ensures out == Stamp(u, ts, ver)
  {
    var a := CopyToArray(u);
    Write48BE(a, ts);
    SetVersion(a, ver);
    SetVariantRfc4122(a);
    out := a[..];
  }

  /** The mask computation both directions start with: `build_sip_input`, `siphash24`, keep 48 bits. */
  method ComputeMask(u: Bytes16, key: Key) returns (mask48: bv64)
    ensures mask48 == TimestampMask(u, key)
  {
    var sipmsg := SipInput(u);
    var h := Sip.SipHash24(sipmsg, key.k0, key.k1);
    mask48 := h & Mask48;
  }

  /** The rest of both directions once the mask is known: read the timestamp, XOR the mask in,
      rewrite the copy with the timestamp, version `ver` and the variant. */
  method ApplyMask(u: Bytes16, mask48: bv64, ver: bv8) returns (out: Bytes16)
    ensures out == Masked(u, mask48, ver)
  {
    var ts48 := Read48BE(u[0..6]);
    Read48BEPrefix(u);
    out := Restamp(u, ts48 ^ mask48, ver);
  }

  /** `encode_v4_facade`: mask from the random bits, XOR into the timestamp, rewrite the copy as version 4. */
  method EncodeV4Facade(v7: Bytes16, key: Key) returns (out: Bytes16)
    ensures out == EncodeSpec(v7, key)
  {
    var mask48 := ComputeMask(v7, key);
    out := ApplyMask(v7, mask48, 4);
  }

  /** `decode_v4_facade`: the same steps with version 7. */
  method DecodeV4Facade(v4: Bytes16, key: Key) returns (out: Bytes16)
    ensures out == DecodeSpec(v4, key)
  {
    var mask48 := ComputeMask(v4, key);
    out := ApplyMask(v4, mask48, 7);
  }

  /** `Stamp` changes only bytes 0..5, the high nibble of byte 6 and the top two bits of byte 8,
      and sets them to the timestamp, the version and the variant. */
  lemma StampFields(u: Bytes16, ts: bv64, ver: bv8)
    ensures var r := Stamp(u, ts, ver);
      && Read48BE(r) == ts & Mask48
      && Version(r) == ver & 0x0F && HasRfcVariant(r)
      && SameRandomBits(r, u)
  {
    StampTimestamp(u, ts, ver);
    StampKeepsRandomBits(u, ts, ver);
    VersionVariantKeepOtherBits(WithTimestamp(u, ts), ver);
  }

  lemma StampTimestamp(u: Bytes16, ts: bv64, ver: bv8)
    ensures Read48BE(Stamp(u, ts, ver)) == ts & Mask48
  {
    var r := Stamp(u, ts, ver);
    assert r[..6] == Be48Bytes(ts);
    Read48BESame(r, Be48Bytes(ts));
    Be48BytesLow48(ts);
    Be48RoundTrip(ts & Mask48);
  }

  lemma Read48BESame(a: seq<bv8>, b: seq<bv8>)
    requires |a| >= 6 && |b| >= 6 && a[..6] == b[..6]
    ensures Read48BE(a) == Read48BE(b)
  {
    assert forall k :: 0 <= k < 6 ==> a[k] == a[..6][k] == b[..6][k] == b[k];
  }

  lemma StampKeepsRandomBits(u: Bytes16, ts: bv64, ver: bv8)
    ensures SameRandomBits(Stamp(u, ts, ver), u)
  {
    var t := WithTimestamp(u, ts);
    VersionVariantKeepOtherBits(t, ver);
    var r := Stamp(u, ts, ver);
    assert r[9..] == u[9..] by {
      assert forall k :: 9 <= k < 16 ==> r[k] == t[k] == u[k];
    }
  }

  /** XOR with a 48-bit mask `m`, then version `ver`: a version-`ver`, RFC-variant UUID with the
      masked timestamp and every random bit kept. */
  lemma MaskedFields(u: Bytes16, m: bv64, ver: bv8)
    requires m <= Mask48
    ensures var f := Masked(u, m, ver);
      && Version(f) == ver & 0x0F && HasRfcVariant(f)
      && Read48BE(f) == Read48BE(u) ^ m
      && SameRandomBits(f, u)
  {
    Read48BEPrefix(u);
    StampFields(u, Read48BE(u) ^ m, ver);
    XorLow48(Read48BE(u), m);
  }

  /** Encoding yields a version 4, RFC-variant UUID with the masked timestamp and every random bit kept. */
  lemma EncodeFields(v7: Bytes16, key: Key)
    ensures var f := EncodeSpec(v7, key);
      && Version(f) == 4 && HasRfcVariant(f)
      && Read48BE(f) == Read48BE(v7) ^ TimestampMask(v7, key)
      && SameRandomBits(f, v7)
  {
    TimestampMaskBound(v7, key);
    MaskedFields(v7, TimestampMask(v7, key), 4);
  }

  /** Decoding yields a version 7, RFC-variant UUID with the unmasked timestamp and every random bit kept. */
  lemma DecodeFields(v4: Bytes16, key: Key)
    ensures var d := DecodeSpec(v4, key);
      && Version(d) == 7 && HasRfcVariant(d)
      && Read48BE(d) == Read48BE(v4) ^ TimestampMask(v4, key)
      && SameRandomBits(d, v4)
  {
    TimestampMaskBound(v4, key);
    MaskedFields(v4, TimestampMask(v4, key), 7);
  }

  lemma XorLow48(a: bv64, b: bv64)
    requires a <= Mask48 && b <= Mask48
    ensures (a ^ b) & Mask48 == a ^ b
  {
  }

  /** Encoding and decoding compute the same mask: the random bits, and so `build_sip_input`, are
      unchanged by either direction. */
  lemma MaskStable(v: Bytes16, u: Bytes16, key: Key)
    requires SameRandomBits(v, u)
    ensures TimestampMask(v, key) == TimestampMask(u, key)
  {
    SipInputExactlyRandomBits(v, u);
  }

  /** Applying the same mask twice, ending with `u`'s own version, gives `u` back. */
  lemma MaskedTwice(u: Bytes16, m: bv64, ver: bv8, back: bv8)
    requires m <= Mask48 && back < 16 && Version(u) == back && HasRfcVariant(u)
    ensures Masked(Masked(u, m, ver), m, back) == u
  {
    var f := Masked(u, m, ver);
    MaskedFields(u, m, ver);
    XorCancels(Read48BE(u), m);
    StampRestores(f, u, back);
  }

  /** Stamping `v`, which agrees with `u` on the random bits, with `u`'s timestamp, version and
      variant gives `u` back. */
  lemma StampRestores(v: Bytes16, u: Bytes16, ver: bv8)
    requires SameRandomBits(v, u) && ver < 16 && Version(u) == ver && HasRfcVariant(u)
    ensures Stamp(v, Read48BE(u), ver) == u
  {
    var r := Stamp(v, Read48BE(u), ver);
    StampRestoresTimestamp(v, u, ver);
    StampRestoresBytes6To8(v, u, Read48BE(u), ver);
    StampKeepsRandomBits(v, Read48BE(u), ver);
    SameBytes16(r, u);
  }

  lemma StampRestoresTimestamp(v: Bytes16, u: Bytes16, ver: bv8)
    ensures Stamp(v, Read48BE(u), ver)[..6] == u[..6]
  {
    var r := Stamp(v, Read48BE(u), ver);
    assert r[..6] == Be48Bytes(Read48BE(u));
    Read48BESame(u, u[..6]);
    Be48Inverse(u[..6]);
  }

  lemma StampRestoresBytes6To8(v: Bytes16, u: Bytes16, ts: bv64, ver: bv8)
    requires v[6] & 0x0F == u[6] & 0x0F && v[7] == u[7] && v[8] & 0x3F == u[8] & 0x3F
    requires ver < 16 && (u[6] >> 4) & 0x0F == ver && u[8] & 0xC0 == 0x80
    ensures var r := Stamp(v, ts, ver); r[6] == u[6] && r[7] == u[7] && r[8] == u[8]
  {
    StampBytes6To8(v, ts, ver);
    VersionByteRestores(v[6], u[6], ver);
    VariantByteRestores(v[8], u[8]);
  }

  /** Bytes 6, 7 and 8 after `Stamp`. */
  lemma StampBytes6To8(v: Bytes16, ts: bv64, ver: bv8)
    ensures var r := Stamp(v, ts, ver);
      && r[6] == (v[6] & 0x0F) | ((ver & 0x0F) << 4)
      && r[7] == v[7]
      && r[8] == (v[8] & 0x3F) | 0x80
  {
    var t := WithTimestamp(v, ts);
    assert t[6] == v[6] && t[7] == v[7] && t[8] == v[8];
  }

  /** `set_version(ver)` on a byte with the right low nibble restores a byte of version `ver`. */
  lemma VersionByteRestores(a: bv8, b: bv8, ver: bv8)
    requires ver < 16 && (b >> 4) & 0x0F == ver && a & 0x0F == b & 0x0F
    ensures (a & 0x0F) | ((ver & 0x0F) << 4) == b
  {
  }

  /** `set_variant_rfc4122` on a byte with the right low six bits restores an RFC-variant byte. */
  lemma VariantByteRestores(a: bv8, b: bv8)
    requires b & 0xC0 == 0x80 && a & 0x3F == b & 0x3F
    ensures (a & 0x3F) | 0x80 == b
  {
  }

  /** Sixteen bytes are equal when their first six, bytes 6..8 and last seven are. */
  lemma SameBytes16(a: Bytes16, b: Bytes16)
    requires a[..6] == b[..6] && a[6] == b[6] && a[7] == b[7] && a[8] == b[8] && a[9..] == b[9..]
    ensures a == b
  {
    forall k | 0 <= k < 16 ensures a[k] == b[k] {
      if k < 6 {
        assert a[k] == a[..6][k];
      } else if k >= 9 {
        assert a[k] == a[9..][k - 9];
      }
    }
  }

  /** `decode_v4_facade(encode_v4_facade(u, key), key) == u` for every version 7, RFC-variant UUID. */
  lemma DecodeEncodeRoundTrip(u: Bytes16, key: Key)
    requires Version(u) == 7 && HasRfcVariant(u)
    ensures DecodeSpec(EncodeSpec(u, key), key) == u
  {
    var m := TimestampMask(u, key);
    TimestampMaskBound(u, key);
    MaskedFields(u, m, 4);
    MaskStable(EncodeSpec(u, key), u, key);
    MaskedTwice(u, m, 4, 7);
  }

  /** And the other way round, for every version 4, RFC-variant facade. */
  lemma EncodeDecodeRoundTrip(f: Bytes16, key: Key)
    requires Version(f) == 4 && HasRfcVariant(f)
    ensures EncodeSpec(DecodeSpec(f, key), key) == f
  {
    var m := TimestampMask(f, key);
    TimestampMaskBound(f, key);
    MaskedFields(f, m, 7);
    MaskStable(DecodeSpec(f, key), f, key);
    MaskedTwice(f, m, 7, 4);
  }

  lemma XorCancels(a: bv64, m: bv64)
    ensures (a ^ m) ^ m == a
  {
  }

  /** Every `craft_v7` output survives the round trip. */
  lemma CraftRoundTrip(ts: bv64, ra: bv16, rb: bv64, key: Key)
    ensures DecodeSpec(EncodeSpec(CraftSpec(ts, ra, rb), key), key) == CraftSpec(ts, ra, rb)
  {
    CraftFields(ts, ra, rb);
    DecodeEncodeRoundTrip(CraftSpec(ts, ra, rb), key);
  }
}
