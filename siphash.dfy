/**
 * SipHash-2-4 as written from scratch in uuidv47/src/main.rs, following section 2
 * of Aumasson and Bernstein, "SipHash: a fast short-input PRF".
 * `SipHash` is the reference definition on values. `SipHash24` is the imperative
 * version, with the mutable words v0..v3 and the three round loops of the source.
 * It is proved equal to `SipHash`.
 */
module Sip {

  /** `u64::wrapping_add`. The three word operations are named functions, so the
      solver treats each application as one unit. */
  function WrappingAdd(a: bv64, b: bv64): bv64 { a + b }

  /** `u64::rotate_left` by a constant amount, written with two shifts. */
  function RotateLeft(x: bv64, n: bv64): bv64
    requires 0 < n < 64
  {
    (x << n) | (x >> (64 - n))
  }

  /** `u64` exclusive or. */
  function Xor(a: bv64, b: bv64): bv64 { a ^ b }

  /** The four 64-bit working words. */
  datatype State = State(v0: bv64, v1: bv64, v2: bv64, v3: bv64)

  /** The initial state: two public constants XORed with `k0`, two with `k1`. */
  function Init(k0: bv64, k1: bv64): State
  {
    State(Xor(0x736f6d6570736575, k0), Xor(0x646f72616e646f6d, k1),
          Xor(0x6c7967656e657261, k0), Xor(0x7465646279746573, k1))
  }

  /** One SipRound: additions, rotations by 13, 16, 32, 17, 21, 32 and XORs, in the source's order. */
  function SipRound(s: State): State
  {
    var v0 := WrappingAdd(s.v0, s.v1);
    var v2 := WrappingAdd(s.v2, s.v3);
    var v1 := RotateLeft(s.v1, 13);
    var v3 := RotateLeft(s.v3, 16);
    var v1 := Xor(v1, v0);
    var v3 := Xor(v3, v2);
    var v0 := RotateLeft(v0, 32);
    var v2 := WrappingAdd(v2, v1);
    var v0 := WrappingAdd(v0, v3);
    var v1 := RotateLeft(v1, 17);
    var v3 := RotateLeft(v3, 21);
    var v1 := Xor(v1, v2);
    var v3 := Xor(v3, v0);
    var v2 := RotateLeft(v2, 32);
    State(v0, v1, v2, v3)
  }

  /** `n` SipRounds in a row. */
  function Rounds(s: State, n: nat): State
    decreases n
  {
    if n == 0 then s else SipRound(Rounds(s, n - 1))
  }

  /** Mixing one message word: XOR it into v3, `c` rounds, XOR it into v0. */
  function Compress(s: State, m: bv64, c: nat): State
  {
    var t := Rounds(s.(v3 := Xor(s.v3, m)), c);
    t.(v0 := Xor(t.v0, m))
  }

  /** `read_64le`: the little-endian value of the first eight bytes of `src`. */
  function Read64LE(src: seq<bv8>, at: nat): (r: bv64)
    requires at + 8 <= |src|
  {
    (src[at] as bv64)
    | ((src[at + 1] as bv64) << 8)
    | ((src[at + 2] as bv64) << 16)
    | ((src[at + 3] as bv64) << 24)
    | ((src[at + 4] as bv64) << 32)
    | ((src[at + 5] as bv64) << 40)
    | ((src[at + 6] as bv64) << 48)
    | ((src[at + 7] as bv64) << 56)
  }

  /** The state after absorbing the first `n` full 8-byte blocks of `input`, in order. */
  function Blocks(s: State, input: seq<bv8>, n: nat, c: nat): State
    requires 8 * n <= |input|
    decreases n
  {
    if n == 0 then s
    else Compress(Blocks(s, input, n - 1, c), Read64LE(input, 8 * (n - 1)), c)
  }

  /** `len as u64` in the source: the conversion keeps the low 64 bits of the length
      (the second branch, for lengths of 2^64 bytes or more). */
  function LengthWord(len: nat): bv64
  {
    if len < 0x1_0000_0000_0000_0000 then len as bv64 else (len % 0x1_0000_0000_0000_0000) as bv64
  }

  /**
   * The final block: the 0 to 7 bytes after the last full block, packed
   * little-endian into the low bytes, and `len << 56` on top, written as the
   * source's `match` on the number of remaining bytes.
   */
  function TailWord(input: seq<bv8>): bv64
  {
    var end := |input| - |input| % 8;
    var r := input[end..];
    var b := LengthWord(|input|) << 56;
    match |r|
    case 7 => b | ((r[6] as bv64) << 48) | ((r[5] as bv64) << 40) | ((r[4] as bv64) << 32)
                | ((r[3] as bv64) << 24) | ((r[2] as bv64) << 16) | ((r[1] as bv64) << 8) | (r[0] as bv64)
    case 6 => b | ((r[5] as bv64) << 40) | ((r[4] as bv64) << 32)
                | ((r[3] as bv64) << 24) | ((r[2] as bv64) << 16) | ((r[1] as bv64) << 8) | (r[0] as bv64)
    case 5 => b | ((r[4] as bv64) << 32)
                | ((r[3] as bv64) << 24) | ((r[2] as bv64) << 16) | ((r[1] as bv64) << 8) | (r[0] as bv64)
    case 4 => b | ((r[3] as bv64) << 24) | ((r[2] as bv64) << 16) | ((r[1] as bv64) << 8) | (r[0] as bv64)
    case 3 => b | ((r[2] as bv64) << 16) | ((r[1] as bv64) << 8) | (r[0] as bv64)
    case 2 => b | ((r[1] as bv64) << 8) | (r[0] as bv64)
    case 1 => b | (r[0] as bv64)
    case _ => b
  }

  /** Finalization: mix the final block, XOR 0xff into v2, `d` rounds, XOR the words together. */
  function Finish(s: State, b: bv64, c: nat, d: nat): bv64
  {
    var t := Compress(s, b, c);
    var u := Rounds(t.(v2 := Xor(t.v2, 0xff)), d);
    Xor(Xor(Xor(u.v0, u.v1), u.v2), u.v3)
  }

  /** The reference definition of `siphash24(input, k0, k1)`. */
  function SipHash(input: seq<bv8>, k0: bv64, k1: bv64): bv64
  {
    Finish(Blocks(Init(k0, k1), input, |input| / 8, 2), TailWord(input), 2, 4)
  }

  /** The round loop `for _ in 0..n` of the source, run on the words in place. */
  method RoundLoop(w0: bv64, w1: bv64, w2: bv64, w3: bv64, n: nat) returns (v0: bv64, v1: bv64, v2: bv64, v3: bv64)
    ensures State(v0, v1, v2, v3) == Rounds(State(w0, w1, w2, w3), n)
  {
    v0, v1, v2, v3 := w0, w1, w2, w3;
    for r := 0 to n
      invariant State(v0, v1, v2, v3) == Rounds(State(w0, w1, w2, w3), r)
    {
      v0 := WrappingAdd(v0, v1);
      v2 := WrappingAdd(v2, v3);
      v1 := RotateLeft(v1, 13);
      v3 := RotateLeft(v3, 16);
      v1 := Xor(v1, v0);
      v3 := Xor(v3, v2);
      v0 := RotateLeft(v0, 32);
      v2 := WrappingAdd(v2, v1);
      v0 := WrappingAdd(v0, v3);
      v1 := RotateLeft(v1, 17);
      v3 := RotateLeft(v3, 21);
      v1 := Xor(v1, v2);
      v3 := Xor(v3, v0);
      v2 := RotateLeft(v2, 32);
    }
  }

  /** The `j`-th full chunk lies inside the input. */
  lemma ChunkFits(len: nat, c: nat)
    requires c < len / 8
    ensures 8 * c + 8 <= len
  {
  }

  /** Everything after the block loop: the final block, its `c` rounds, the `d` finalization rounds. */
  method Finalize(w0: bv64, w1: bv64, w2: bv64, w3: bv64, b: bv64, c: nat, d: nat) returns (h: bv64)
    ensures h == Finish(State(w0, w1, w2, w3), b, c, d)
  {
    var v0, v1, v2, v3 := w0, w1, w2, Xor(w3, b);
    v0, v1, v2, v3 := RoundLoop(v0, v1, v2, v3, c);
    v0 := Xor(v0, b);
    v2 := Xor(v2, 0xff);
    v0, v1, v2, v3 := RoundLoop(v0, v1, v2, v3, d);
    h := Xor(Xor(Xor(v0, v1), v2), v3);
  }

  /** The body of the block loop: `v3 ^= m`, the `c` compression rounds, `v0 ^= m`. */
  method CompressWord(w0: bv64, w1: bv64, w2: bv64, w3: bv64, m: bv64, c: nat)
      returns (v0: bv64, v1: bv64, v2: bv64, v3: bv64)
    ensures State(v0, v1, v2, v3) == Compress(State(w0, w1, w2, w3), m, c)
  {
    v0, v1, v2, v3 := RoundLoop(w0, w1, w2, Xor(w3, m), c);
    v0 := Xor(v0, m);
  }

  /** The block loop of `siphash24`: each full 8-byte chunk is mixed into the words in turn. */
  method AbsorbBlocks(input: seq<bv8>, w0: bv64, w1: bv64, w2: bv64, w3: bv64, c: nat)
      returns (v0: bv64, v1: bv64, v2: bv64, v3: bv64)
    ensures State(v0, v1, v2, v3) == Blocks(State(w0, w1, w2, w3), input, |input| / 8, c)
  {
    v0, v1, v2, v3 := w0, w1, w2, w3;
    for j := 0 to |input| / 8
      invariant State(v0, v1, v2, v3) == Blocks(State(w0, w1, w2, w3), input, j, c)
    {
      ChunkFits(|input|, j);
      var m := Read64LE(input, 8 * j);
      v0, v1, v2, v3 := CompressWord(v0, v1, v2, v3, m, c);
    }
  }

  /** `siphash24` as the source runs it: v0..v3 are updated in place by the round loops. */
  method SipHash24(input: seq<bv8>, k0: bv64, k1: bv64) returns (h: bv64)
    ensures h == SipHash(input, k0, k1)
  {
    var v0 := Xor(0x736f6d6570736575, k0);
    var v1 := Xor(0x646f72616e646f6d, k1);
    var v2 := Xor(0x6c7967656e657261, k0);
    var v3 := Xor(0x7465646279746573, k1);
    v0, v1, v2, v3 := AbsorbBlocks(input, v0, v1, v2, v3, 2);
    var b := TailWord(input);
    h := Finalize(v0, v1, v2, v3, b, 2, 4);
  }

  /** Reference packing: the little-endian value of the bytes `src[i..j]`, at most eight of them,
      the first byte the least significant. */
  function LittleEndian(src: seq<bv8>, i: nat, j: nat): bv64
    requires i <= j <= |src| && j <= i + 8
    decreases j - i
  {
    if i == j then 0 else (src[i] as bv64) | (LittleEndian(src, i + 1, j) << 8)
  }

  lemma LittleEndianStep(src: seq<bv8>, i: nat, j: nat)
    requires i < j <= |src| && j <= i + 8
    ensures LittleEndian(src, i, j) == (src[i] as bv64) | (LittleEndian(src, i + 1, j) << 8)
  {
  }

  lemma PackBytes(b0: bv8, b1: bv8, b2: bv8, b3: bv8, b4: bv8, b5: bv8, b6: bv8, b7: bv8)
    ensures (b0 as bv64) | (((b1 as bv64) | (((b2 as bv64) | (((b3 as bv64) | (((b4 as bv64) | (((b5 as bv64) | (((b6 as bv64) | (((b7 as bv64) | (0 << 8)) << 8)) << 8)) << 8)) << 8)) << 8)) << 8)) << 8)
         == (b0 as bv64) | ((b1 as bv64) << 8) | ((b2 as bv64) << 16) | ((b3 as bv64) << 24) | ((b4 as bv64) << 32) | ((b5 as bv64) << 40) | ((b6 as bv64) << 48) | ((b7 as bv64) << 56)
  {
  }

  /** `read_64le` is little-endian packing of the eight bytes at `at`. */
  lemma Read64LEIsLittleEndian(src: seq<bv8>, at: nat)
    requires at + 8 <= |src|
    ensures Read64LE(src, at) == LittleEndian(src, at, at + 8)
  {
    LittleEndianStep(src, at + 7, at + 8);
    LittleEndianStep(src, at + 6, at + 8);
    LittleEndianStep(src, at + 5, at + 8);
    LittleEndianStep(src, at + 4, at + 8);
    LittleEndianStep(src, at + 3, at + 8);
    LittleEndianStep(src, at + 2, at + 8);
    LittleEndianStep(src, at + 1, at + 8);
    LittleEndianStep(src, at, at + 8);
    PackBytes(src[at], src[at + 1], src[at + 2], src[at + 3], src[at + 4], src[at + 5], src[at + 6], src[at + 7]);
  }

  /** The low seven bytes of the final block are the 0 to 7 trailing input bytes, packed little-endian. */
  lemma TailWordLowBytes(input: seq<bv8>)
    ensures TailWord(input) & 0x00ff_ffff_ffff_ffff == LittleEndian(input, |input| - |input| % 8, |input|)
  {
    var end := |input| - |input| % 8;
    var r := input[end..];
    assert forall k :: 0 <= k < |r| ==> r[k] == input[end + k];
    match |input| % 8
    case 7 =>
      LittleEndianStep(input, end + 6, |input|);
      LittleEndianStep(input, end + 5, |input|);
      LittleEndianStep(input, end + 4, |input|);
      LittleEndianStep(input, end + 3, |input|);
      LittleEndianStep(input, end + 2, |input|);
      LittleEndianStep(input, end + 1, |input|);
      LittleEndianStep(input, end + 0, |input|);
    case 6 =>
      LittleEndianStep(input, end + 5, |input|);
      LittleEndianStep(input, end + 4, |input|);
      LittleEndianStep(input, end + 3, |input|);
      LittleEndianStep(input, end + 2, |input|);
      LittleEndianStep(input, end + 1, |input|);
      LittleEndianStep(input, end + 0, |input|);
    case 5 =>
      LittleEndianStep(input, end + 4, |input|);
      LittleEndianStep(input, end + 3, |input|);
      LittleEndianStep(input, end + 2, |input|);
      LittleEndianStep(input, end + 1, |input|);
      LittleEndianStep(input, end + 0, |input|);
    case 4 =>
      LittleEndianStep(input, end + 3, |input|);
      LittleEndianStep(input, end + 2, |input|);
      LittleEndianStep(input, end + 1, |input|);
      LittleEndianStep(input, end + 0, |input|);
    case 3 =>
      LittleEndianStep(input, end + 2, |input|);
      LittleEndianStep(input, end + 1, |input|);
      LittleEndianStep(input, end + 0, |input|);
    case 2 =>
      LittleEndianStep(input, end + 1, |input|);
      LittleEndianStep(input, end + 0, |input|);
    case 1 =>
      LittleEndianStep(input, end + 0, |input|);
    case _ =>
  }

  /** The top byte of the final block is the low byte of the input length. */
  lemma TailWordTopByte(input: seq<bv8>)
    ensures TailWord(input) >> 56 == LengthWord(|input|) & 0xff
  {
    var r := input[|input| - |input| % 8..];
    var len := LengthWord(|input|);
    match |r|
    case 7 => LengthOnTop(len, ((r[6] as bv64) << 48) | ((r[5] as bv64) << 40) | ((r[4] as bv64) << 32)
                | ((r[3] as bv64) << 24) | ((r[2] as bv64) << 16) | ((r[1] as bv64) << 8) | (r[0] as bv64));
    case 6 => LengthOnTop(len, ((r[5] as bv64) << 40) | ((r[4] as bv64) << 32)
                | ((r[3] as bv64) << 24) | ((r[2] as bv64) << 16) | ((r[1] as bv64) << 8) | (r[0] as bv64));
    case 5 => LengthOnTop(len, ((r[4] as bv64) << 32)
                | ((r[3] as bv64) << 24) | ((r[2] as bv64) << 16) | ((r[1] as bv64) << 8) | (r[0] as bv64));
    case 4 => LengthOnTop(len, ((r[3] as bv64) << 24) | ((r[2] as bv64) << 16) | ((r[1] as bv64) << 8) | (r[0] as bv64));
    case 3 => LengthOnTop(len, ((r[2] as bv64) << 16) | ((r[1] as bv64) << 8) | (r[0] as bv64));
    case 2 => LengthOnTop(len, ((r[1] as bv64) << 8) | (r[0] as bv64));
    case 1 => LengthOnTop(len, r[0] as bv64);
    case _ => LengthOnTop(len, 0);
  }

  /** Below the length byte there is room for seven bytes. */
  lemma LengthOnTop(len: bv64, low: bv64)
    requires low < 0x0100_0000_0000_0000
    ensures ((len << 56) | low) >> 56 == len & 0xff
  {
  }
}
