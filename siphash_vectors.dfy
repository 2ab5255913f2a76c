/**
 * The test `test_siphash_vectors` of uuidv47/src/main.rs: SipHash-2-4 of the
 * messages 00 01 02 .. (L-1) for L = 0 .. 10, keyed with 0x0706050403020100 and
 * 0x0f0e0d0c0b0a0908. Each `ReferenceVector` lemma evaluates `SipHash` on one
 * message, one block and one round at a time.
 *
 * The values the test lists are the reference outputs of the SipHash paper
 * (appendix A) written as if its byte strings were big-endian words, while
 * `siphash24` returns the word whose little-endian bytes are that string.
 * `ListedVectorsDisagree` shows that the test as written fails for every length;
 * `CorrectedVectorsHold` proves the byte-swapped values.
 */
module SipHashVectors {
  import opened Sip

  const TestKey0: bv64 := 0x0706050403020100
  const TestKey1: bv64 := 0x0f0e0d0c0b0a0908

  /** The prefixes of the test message 00 01 02 .. that the test hashes, indexed by length. */
  const TestInputs: seq<seq<bv8>> := [
    [],
    [0x00],
    [0x00, 0x01],
    [0x00, 0x01, 0x02],
    [0x00, 0x01, 0x02, 0x03],
    [0x00, 0x01, 0x02, 0x03, 0x04],
    [0x00, 0x01, 0x02, 0x03, 0x04, 0x05],
    [0x00, 0x01, 0x02, 0x03, 0x04, 0x05, 0x06],
    [0x00, 0x01, 0x02, 0x03, 0x04, 0x05, 0x06, 0x07],
    [0x00, 0x01, 0x02, 0x03, 0x04, 0x05, 0x06, 0x07, 0x08],
    [0x00, 0x01, 0x02, 0x03, 0x04, 0x05, 0x06, 0x07, 0x08, 0x09]
  ]

  /** The expected values as the test lists them, indexed by length. */
  const ListedVectors: seq<bv64> := [
    0x310e0edd47db6f72,
    0xfd67dc93c539f874,
    0x5a4fa9d909806c0d,
    0x2d7efbd796666785,
    0xb7877127e09427cf,
    0x8da699cd64557618,
    0xcee3fe586e46c9cb,
    0x37d1018bf50002ab,
    0x6224939a79f5f593,
    0xb0e4a90bdf82009e,
    0xf3b9dd94c5bb5d7a
  ]

  /** The values the test evidently means: the listed ones with their bytes reversed. */
  const CorrectedVectors: seq<bv64> := [
    0x726fdb47dd0e0e31,
    0x74f839c593dc67fd,
    0x0d6c8009d9a94f5a,
    0x85676696d7fb7e2d,
    0xcf2794e0277187b7,
    0x18765564cd99a68d,
    0xcbc9466e58fee3ce,
    0xab0200f58b01d137,
    0x93f5f5799a932462,
    0x9e0082df0ba9e4b0,
    0x7a5dbbc594ddb9f3
  ]

  /** Reverses the byte order of a word. */
  function ByteSwap64(x: bv64): bv64
  {
    ((x & 0xff) << 56) | (((x >> 8) & 0xff) << 48) | (((x >> 16) & 0xff) << 40) | (((x >> 24) & 0xff) << 32)
    | (((x >> 32) & 0xff) << 24) | (((x >> 40) & 0xff) << 16) | (((x >> 48) & 0xff) << 8) | (x >> 56)
  }

  /** Swapping the bytes twice gives the word back. */
  lemma ByteSwap64Involution(x: bv64)
    ensures ByteSwap64(ByteSwap64(x)) == x
  {
  }

  /** Each corrected value is the listed one with its bytes reversed, and differs from it. */
  lemma CorrectedVectorsAreByteSwapped(len: nat)
    requires len < |ListedVectors|
    ensures |CorrectedVectors| == |ListedVectors|
    ensures CorrectedVectors[len] == ByteSwap64(ListedVectors[len])
    ensures CorrectedVectors[len] != ListedVectors[len]
  {
  }

  /** The state after the test message's first block, which is the same for every length from 8 on. */
  lemma FirstBlockState()
    ensures Compress(Init(TestKey0, TestKey1), 0x0706050403020100, 2) == State(0x4a017198de0a59e0, 0x0d52f6f62a4f59a4, 0x634cb3577b01fd3d, 0xa5224d6f55c7d9c8)
  {
    assert Init(TestKey0, TestKey1) == State(0x7469686173716475, 0x6b617f6d656e6665, 0x6b7f62616d677361, 0x7b6b696e727e6c7b);
    assert Rounds(State(0x7469686173716475, 0x6b617f6d656e6665, 0x6b7f62616d677361, 0x7c6d6c6a717c6d7b), 1) == State(0x64668a929363847f, 0x4ed232083d9aa8dc, 0xf2f74892d8141a2e, 0x9290f9810552f4a8);
    assert Rounds(State(0x7469686173716475, 0x6b617f6d656e6665, 0x6b7f62616d677361, 0x7c6d6c6a717c6d7b), 2) == State(0x4d07749cdd0858e0, 0x0d52f6f62a4f59a4, 0x634cb3577b01fd3d, 0xa5224d6f55c7d9c8);
  }

  /** Length 0: the hash is 0x726fdb47dd0e0e31. */
  lemma ReferenceVector0()
    ensures SipHash(TestInputs[0], TestKey0, TestKey1) == CorrectedVectors[0]
  {
    var input := TestInputs[0];
    assert input == [];
    assert Init(TestKey0, TestKey1) == State(0x7469686173716475, 0x6b617f6d656e6665, 0x6b7f62616d677361, 0x7b6b696e727e6c7b);
    assert Blocks(Init(TestKey0, TestKey1), input, 0, 2) == State(0x7469686173716475, 0x6b617f6d656e6665, 0x6b7f62616d677361, 0x7b6b696e727e6c7b);
    assert TailWord(input) == 0x0000000000000000;
    assert Rounds(State(0x7469686173716475, 0x6b617f6d656e6665, 0x6b7f62616d677361, 0x7b6b696e727e6c7b), 1) == State(0x6864848c93698c85, 0x41d43f143c94a7dc, 0xf3f94792d7121732, 0x5e52f75805987c12);
    assert Rounds(State(0x7469686173716475, 0x6b617f6d656e6665, 0x6b7f62616d677361, 0x7b6b696e727e6c7b), 2) == State(0x75126fd44af190b6, 0x084235164f06142b, 0x37b04f9f8026831d, 0x1b4678cde8253231);
    assert Rounds(State(0x75126fd44af190b6, 0x084235164f06142b, 0x37b04f9f802683e2, 0x1b4678cde8253231), 1) == State(0xc432c529d7cf523f, 0x54f98392486c0c10, 0xc3be7bfc8eed3577, 0xcd398a7c7d6a155b);
    assert Rounds(State(0x75126fd44af190b6, 0x084235164f06142b, 0x37b04f9f802683e2, 0x1b4678cde8253231), 2) == State(0x3abfd9623238d0a7, 0xb9354b5807b0cd1e, 0xae109fa2ba56082a, 0x58dcf8f2cf5b8028);
    assert Rounds(State(0x75126fd44af190b6, 0x084235164f06142b, 0x37b04f9f802683e2, 0x1b4678cde8253231), 3) == State(0x3808f593fd8ef548, 0x2913fc753c3d6609, 0xa9fbd335618bbce1, 0xc1c9c6a9ec5136a2);
    assert Rounds(State(0x75126fd44af190b6, 0x084235164f06142b, 0x37b04f9f802683e2, 0x1b4678cde8253231), 4) == State(0xe738d0dfdc9b2453, 0x214ac5771e0c4cd2, 0xe2ea71f68a57ef6d, 0x56f7bf1995ce89dd);
    assert Finish(State(0x7469686173716475, 0x6b617f6d656e6665, 0x6b7f62616d677361, 0x7b6b696e727e6c7b), 0x0000000000000000, 2, 4) == 0x726fdb47dd0e0e31;
    assert |input| / 8 == 0;
  }

  /** Length 1: the hash is 0x74f839c593dc67fd. */
  lemma ReferenceVector1()
    ensures SipHash(TestInputs[1], TestKey0, TestKey1) == CorrectedVectors[1]
  {
    var input := TestInputs[1];
    assert input == [0x00];
    assert Init(TestKey0, TestKey1) == State(0x7469686173716475, 0x6b617f6d656e6665, 0x6b7f62616d677361, 0x7b6b696e727e6c7b);
    assert Blocks(Init(TestKey0, TestKey1), input, 0, 2) == State(0x7469686173716475, 0x6b617f6d656e6665, 0x6b7f62616d677361, 0x7b6b696e727e6c7b);
    assert TailWord(input) == 0x0100000000000000;
    assert Rounds(State(0x7469686173716475, 0x6b617f6d656e6665, 0x6b7f62616d677361, 0x7a6b696e727e6c7b), 1) == State(0x6564848c93698d85, 0x40d43f143c94a7dc, 0xf3f94792d6121732, 0x5352f75825981d12);
    assert Rounds(State(0x7469686173716475, 0x6b617f6d656e6665, 0x6b7f62616d677361, 0x7a6b696e727e6c7b), 2) == State(0x801250d48cf12ab6, 0xe14235162c59b20b, 0x56aff1bf6926831d, 0xee4e87d86e272835);
    assert Rounds(State(0x811250d48cf12ab6, 0xe14235162c59b20b, 0x56aff1bf692683e2, 0xee4e87d86e272835), 1) == State(0x7c70f47261ccc843, 0xe937a7ee278b04ec, 0x66594d0069f4b9f9, 0x8a6f1b7a2af4ac81);
    assert Rounds(State(0x811250d48cf12ab6, 0xe14235162c59b20b, 0x56aff1bf692683e2, 0xee4e87d86e272835), 2) == State(0x750a0fbd9e118875, 0x333e1298dea09429, 0x7eb3b683821dc10c, 0x24cd02a01cacfe3d);
    assert Rounds(State(0x811250d48cf12ab6, 0xe14235162c59b20b, 0x56aff1bf692683e2, 0xee4e87d86e272835), 3) == State(0x1dd2c22e093fbdda, 0x7e9f2ec878f32e74, 0x0d01fa420d9bf2a6, 0xac3edcdd79ab99ce);
    assert Rounds(State(0x811250d48cf12ab6, 0xe14235162c59b20b, 0x56aff1bf692683e2, 0xee4e87d86e272835), 4) == State(0xe7d09b02bafb1140, 0xcd3818f0a8790340, 0x6f43f01132e9d708, 0x31534a26b3b7a2f5);
    assert Finish(State(0x7469686173716475, 0x6b617f6d656e6665, 0x6b7f62616d677361, 0x7b6b696e727e6c7b), 0x0100000000000000, 2, 4) == 0x74f839c593dc67fd;
    assert |input| / 8 == 0;
  }

  /** Length 2: the hash is 0x0d6c8009d9a94f5a. */
  lemma ReferenceVector2()
    ensures SipHash(TestInputs[2], TestKey0, TestKey1) == CorrectedVectors[2]
  {
    var input := TestInputs[2];
    assert input == [0x00, 0x01];
    assert Init(TestKey0, TestKey1) == State(0x7469686173716475, 0x6b617f6d656e6665, 0x6b7f62616d677361, 0x7b6b696e727e6c7b);
    assert Blocks(Init(TestKey0, TestKey1), input, 0, 2) == State(0x7469686173716475, 0x6b617f6d656e6665, 0x6b7f62616d677361, 0x7b6b696e727e6c7b);
    assert TailWord(input) == 0x0200000000000100;
    assert Rounds(State(0x7469686173716475, 0x6b617f6d656e6665, 0x6b7f62616d677361, 0x796b696e727e6d7b), 1) == State(0x6664848c92698185, 0x43d43f143c94a8dc, 0xf3f94892d5121732, 0x5052d75fa4983112);
    assert Rounds(State(0x7469686173716475, 0x6b617f6d656e6665, 0x6b7f62616d677361, 0x796b696e727e6d7b), 2) == State(0x6211e5cbf2f0dbb6, 0xfa42d3ef91b9b1eb, 0xd58fea5f72266424, 0x0f58f2c8f022b9c1);
    assert Rounds(State(0x6011e5cbf2f0dab6, 0xfa42d3ef91b9b1eb, 0xd58fea5f722664db, 0x0f58f2c8f022b9c1), 1) == State(0x9acab9ac35dccb7f, 0x720b4d9af33312d7, 0x14e11285e51228b5, 0x3b91c8ae0d5e0f7a);
    assert Rounds(State(0x6011e5cbf2f0dab6, 0xfa42d3ef91b9b1eb, 0xd58fea5f722664db, 0x0f58f2c8f022b9c1), 2) == State(0xc1ecb4c409e00b05, 0x079aa2ff5deba28c, 0x3dc56846b5d83455, 0x0c5315847e33109f);
    assert Rounds(State(0x6011e5cbf2f0dab6, 0xfa42d3ef91b9b1eb, 0xd58fea5f722664db, 0x0f58f2c8f022b9c1), 3) == State(0xc767b189ee1ba06a, 0x9f0d1d7d1d6049e7, 0x47a57256e7f13a49, 0xb8632300faf053ea);
    assert Rounds(State(0x6011e5cbf2f0dab6, 0xfa42d3ef91b9b1eb, 0xd58fea5f722664db, 0x0f58f2c8f022b9c1), 4) == State(0x2e8459f917800557, 0x1cb2068cd6492c55, 0xe528a7e3c5e40202, 0xda72789fdd84645a);
    assert Finish(State(0x7469686173716475, 0x6b617f6d656e6665, 0x6b7f62616d677361, 0x7b6b696e727e6c7b), 0x0200000000000100, 2, 4) == 0x0d6c8009d9a94f5a;
    assert |input| / 8 == 0;
  }

  /** Length 3: the hash is 0x85676696d7fb7e2d. */
  lemma ReferenceVector3()
    ensures SipHash(TestInputs[3], TestKey0, TestKey1) == CorrectedVectors[3]
  {
    var input := TestInputs[3];
    assert input == [0x00, 0x01, 0x02];
    assert Init(TestKey0, TestKey1) == State(0x7469686173716475, 0x6b617f6d656e6665, 0x6b7f62616d677361, 0x7b6b696e727e6c7b);
    assert Blocks(Init(TestKey0, TestKey1), input, 0, 2) == State(0x7469686173716475, 0x6b617f6d656e6665, 0x6b7f62616d677361, 0x7b6b696e727e6c7b);
    assert TailWord(input) == 0x0300000000020100;
    assert Rounds(State(0x7469686173716475, 0x6b617f6d656e6665, 0x6b7f62616d677361, 0x786b696e727c6d7b), 1) == State(0x6364848e92638085, 0x42d43f143c9aa8dc, 0xf3f74892d4121732, 0x5512d79d8492d012);
    assert Rounds(State(0x7469686173716475, 0x6b617f6d656e6665, 0x6b7f62616d677361, 0x786b696e727c6d7b), 2) == State(0x6d95ce042eef75f8, 0xe28753aab6fccbcb, 0xf48a887f6ae46461, 0xf9c4d8d2643ca70c);
    assert Rounds(State(0x6e95ce042eed74f8, 0xe28753aab6fccbcb, 0xf48a887f6ae4649e, 0xf9c4d8d2643ca70c), 1) == State(0x1c874630b94b141c, 0x475521e532933eed, 0x4bb4483da9b7d8c3, 0xb12a438ef48dc7bc);
    assert Rounds(State(0x6e95ce042eed74f8, 0xe28753aab6fccbcb, 0xf48a887f6ae4649e, 0xf9c4d8d2643ca70c), 2) == State(0xab2ed24abdd5796a, 0x58304213dd8e13a3, 0x2a499c62c4bf5a14, 0x4305ed6897629365);
    assert Rounds(State(0x6e95ce042eed74f8, 0xe28753aab6fccbcb, 0xf48a887f6ae4649e, 0xf9c4d8d2643ca70c), 3) == State(0x1b8aabb6d2a3c2da, 0xa7b24b95792fc5be, 0xb539d384786cf9ba, 0xceb343231d33c639);
    assert Rounds(State(0x6e95ce042eed74f8, 0xe28753aab6fccbcb, 0xf48a887f6ae4649e, 0xf9c4d8d2643ca70c), 4) == State(0x0ca1942d16d6688c, 0xbee809d9f1d808fd, 0x49051c610e3b6f11, 0x7e2be7033ece714d);
    assert Finish(State(0x7469686173716475, 0x6b617f6d656e6665, 0x6b7f62616d677361, 0x7b6b696e727e6c7b), 0x0300000000020100, 2, 4) == 0x85676696d7fb7e2d;
    assert |input| / 8 == 0;
  }

  /** Length 4: the hash is 0xcf2794e0277187b7. */
  lemma ReferenceVector4()
    ensures SipHash(TestInputs[4], TestKey0, TestKey1) == CorrectedVectors[4]
  {
    var input := TestInputs[4];
    assert input == [0x00, 0x01, 0x02, 0x03];
    assert Init(TestKey0, TestKey1) == State(0x7469686173716475, 0x6b617f6d656e6665, 0x6b7f62616d677361, 0x7b6b696e727e6c7b);
    assert Blocks(Init(TestKey0, TestKey1), input, 0, 2) == State(0x7469686173716475, 0x6b617f6d656e6665, 0x6b7f62616d677361, 0x7b6b696e727e6c7b);
    assert TailWord(input) == 0x0400000003020100;
    assert Rounds(State(0x7469686173716475, 0x6b617f6d656e6665, 0x6b7f62616d677361, 0x7f6b696e717c6d7b), 1) == State(0x5c64858e93638785, 0x4dd43f143d9aa8dc, 0xf2f74892db121732, 0x0a12f69d6593f712);
    assert Rounds(State(0x7469686173716475, 0x6b617f6d656e6665, 0x6b7f62616d677361, 0x7f6b696e717c6d7b), 2) == State(0xdc958b0561ecc8f8, 0xacc7898ab53d93ab, 0xc68bc81f2ae48241, 0x88e37d85eb2dba13);
    assert Rounds(State(0xd8958b0562eec9f8, 0xacc7898ab53d93ab, 0xc68bc81f2ae482be, 0x88e37d85eb2dba13), 1) == State(0x4b170c2c315ec8c2, 0x47b4d36e901d8dd4, 0xc06b650cc3db87dc, 0x9a028c1ab7189597);
    assert Rounds(State(0xd8958b0562eec9f8, 0xacc7898ab53d93ab, 0xc68bc81f2ae482be, 0x88e37d85eb2dba13), 2) == State(0x97f39cd6822f670b, 0x78211f4d577aea9f, 0xebbafbd36313fec0, 0x500e70a66c15a9e3);
    assert Rounds(State(0xd8958b0562eec9f8, 0xacc7898ab53d93ab, 0xc68bc81f2ae482be, 0x88e37d85eb2dba13), 3) == State(0x2519521676dfb4d0, 0x425f8ab5297f00ab, 0x542367516fc68346, 0x28958b496376d930);
    assert Rounds(State(0xd8958b0562eec9f8, 0xacc7898ab53d93ab, 0xc68bc81f2ae482be, 0x88e37d85eb2dba13), 4) == State(0x98504767718651ae, 0xe12fece8a9e815fa, 0x138939a612e76c7f, 0xa5d106c9edf8af9c);
    assert Finish(State(0x7469686173716475, 0x6b617f6d656e6665, 0x6b7f62616d677361, 0x7b6b696e727e6c7b), 0x0400000003020100, 2, 4) == 0xcf2794e0277187b7;
    assert |input| / 8 == 0;
  }

  /** Length 5: the hash is 0x18765564cd99a68d. */
  lemma ReferenceVector5()
    ensures SipHash(TestInputs[5], TestKey0, TestKey1) == CorrectedVectors[5]
  {
    var input := TestInputs[5];
    assert input == [0x00, 0x01, 0x02, 0x03, 0x04];
    assert Init(TestKey0, TestKey1) == State(0x7469686173716475, 0x6b617f6d656e6665, 0x6b7f62616d677361, 0x7b6b696e727e6c7b);
    assert Blocks(Init(TestKey0, TestKey1), input, 0, 2) == State(0x7469686173716475, 0x6b617f6d656e6665, 0x6b7f62616d677361, 0x7b6b696e727e6c7b);
    assert TailWord(input) == 0x0500000403020100;
    assert Rounds(State(0x7469686173716475, 0x6b617f6d656e6665, 0x6b7f62616d677361, 0x7e6b696a717c6d7b), 1) == State(0x5960859293638685, 0x4cd43f083d9aa8dc, 0xf2f74892da12172e, 0x0f96f68145939692);
    assert Rounds(State(0x7469686173716475, 0x6b617f6d656e6665, 0x6b7f62616d677361, 0x7e6b696a717c6d7b), 2) == State(0xc50da9e92f6c66f0, 0xa23709f6e87d1710, 0xa58b54bb2464023d, 0x95fc8f1d65b2e71f);
    assert Rounds(State(0xc00da9ed2c6e67f0, 0xa23709f6e87d1710, 0xa58b54bb246402c2, 0x95fc8f1d65b2e71f), 1) == State(0xc986056acf4e3001, 0x62d53ed696ad53d3, 0x40205527bf0252c4, 0x04cba4454cf8a351);
    assert Rounds(State(0xc00da9ed2c6e67f0, 0xa23709f6e87d1710, 0xa58b54bb246402c2, 0x95fc8f1d65b2e71f), 2) == State(0x46aa3969d507371f, 0xfd440f020461f2a0, 0xdb7ce5a3d06d9001, 0xf41f2c178edb22c9);
    assert Rounds(State(0xc00da9ed2c6e67f0, 0xa23709f6e87d1710, 0xa58b54bb246402c2, 0x95fc8f1d65b2e71f), 3) == State(0xbcf4c91fc16f8f40, 0x8065d4d92aaa6cfd, 0x4685e8e191aa1aa3, 0x50fb79371bd3fe33);
    assert Rounds(State(0xc00da9ed2c6e67f0, 0xa23709f6e87d1710, 0xa58b54bb246402c2, 0x95fc8f1d65b2e71f), 4) == State(0xdad0760890a7e625, 0x6e1859cad7676a84, 0x4f0465071f431ac6, 0xe3ba1fa1951a30ea);
    assert Finish(State(0x7469686173716475, 0x6b617f6d656e6665, 0x6b7f62616d677361, 0x7b6b696e727e6c7b), 0x0500000403020100, 2, 4) == 0x18765564cd99a68d;
    assert |input| / 8 == 0;
  }

  /** Length 6: the hash is 0xcbc9466e58fee3ce. */
  lemma ReferenceVector6()
    ensures SipHash(TestInputs[6], TestKey0, TestKey1) == CorrectedVectors[6]
  {
    var input := TestInputs[6];
    assert input == [0x00, 0x01, 0x02, 0x03, 0x04, 0x05];
    assert Init(TestKey0, TestKey1) == State(0x7469686173716475, 0x6b617f6d656e6665, 0x6b7f62616d677361, 0x7b6b696e727e6c7b);
    assert Blocks(Init(TestKey0, TestKey1), input, 0, 2) == State(0x7469686173716475, 0x6b617f6d656e6665, 0x6b7f62616d677361, 0x7b6b696e727e6c7b);
    assert TailWord(input) == 0x0600050403020100;
    assert Rounds(State(0x7469686173716475, 0x6b617f6d656e6665, 0x6b7f62616d677361, 0x7d6b6c6a717c6d7b), 1) == State(0x5d608a9293638585, 0x4fd432083d9aa8dc, 0xf2f74892d9121a2e, 0xab96f98125931592);
    assert Rounds(State(0x7469686173716475, 0x6b617f6d656e6665, 0x6b7f62616d677361, 0x7d6b6c6a717c6d7b), 2) == State(0x380d95e2986c40f0, 0xbc50f6f6cbbc81b0, 0x848ad75bca03fd3d, 0xc810f31212a0a11c);
    assert Rounds(State(0x3e0d90e69b6e41f0, 0xbc50f6f6cbbc81b0, 0x848ad75bca03fdc2, 0xc810f31212a0a11c), 1) == State(0x26b49c6e7816deab, 0x8c49c7217b94ba08, 0xd3c17308311c2918, 0x3f1b2b64a1c12f90);
    assert Rounds(State(0x3e0d90e69b6e41f0, 0xbc50f6f6cbbc81b0, 0x848ad75bca03fdc2, 0xc810f31212a0a11c), 2) == State(0x2d63d861b04bcb42, 0x050c22bf25b2f5d6, 0x37c7e1e29cf6eb6a, 0xd8dc71cd462cfc45);
    assert Rounds(State(0x3e0d90e69b6e41f0, 0xbc50f6f6cbbc81b0, 0x848ad75bca03fdc2, 0xc810f31212a0a11c), 3) == State(0x3767d69b51d63a93, 0xf9f165ce6d148518, 0x6e67e968c6dc7346, 0x87043a5cbfba17b1);
    assert Rounds(State(0x3e0d90e69b6e41f0, 0xbc50f6f6cbbc81b0, 0x848ad75bca03fdc2, 0xc810f31212a0a11c), 4) == State(0x8e1b5c2ac2804a5c, 0xf0db4903f5ca104d, 0xb4e02b8c134d1590, 0x01e978cb7cf9ac4f);
    assert Finish(State(0x7469686173716475, 0x6b617f6d656e6665, 0x6b7f62616d677361, 0x7b6b696e727e6c7b), 0x0600050403020100, 2, 4) == 0xcbc9466e58fee3ce;
    assert |input| / 8 == 0;
  }

  /** Length 7: the hash is 0xab0200f58b01d137. */
  lemma ReferenceVector7()
    ensures SipHash(TestInputs[7], TestKey0, TestKey1) == CorrectedVectors[7]
  {
    var input := TestInputs[7];
    assert input == [0x00, 0x01, 0x02, 0x03, 0x04, 0x05, 0x06];
    assert Init(TestKey0, TestKey1) == State(0x7469686173716475, 0x6b617f6d656e6665, 0x6b7f62616d677361, 0x7b6b696e727e6c7b);
    assert Blocks(Init(TestKey0, TestKey1), input, 0, 2) == State(0x7469686173716475, 0x6b617f6d656e6665, 0x6b7f62616d677361, 0x7b6b696e727e6c7b);
    assert TailWord(input) == 0x0706050403020100;
    assert Rounds(State(0x7469686173716475, 0x6b617f6d656e6665, 0x6b7f62616d677361, 0x7c6d6c6a717c6d7b), 1) == State(0x64668a929363847f, 0x4ed232083d9aa8dc, 0xf2f74892d8141a2e, 0x9290f9810552f4a8);
    assert Rounds(State(0x7469686173716475, 0x6b617f6d656e6665, 0x6b7f62616d677361, 0x7c6d6c6a717c6d7b), 2) == State(0x4d07749cdd0858e0, 0x0d52f6f62a4f59a4, 0x634cb3577b01fd3d, 0xa5224d6f55c7d9c8);
    assert Rounds(State(0x4a017198de0a59e0, 0x0d52f6f62a4f59a4, 0x634cb3577b01fdc2, 0xa5224d6f55c7d9c8), 1) == State(0x4d5a08856055db37, 0x4a746857d06b1aad, 0xb43709b811f9ae8d, 0xed7b28ab355d7b3d);
    assert Rounds(State(0x4a017198de0a59e0, 0x0d52f6f62a4f59a4, 0x634cb3577b01fdc2, 0xa5224d6f55c7d9c8), 2) == State(0xb9d9fd22d439358e, 0xa9d61a1923b8b3fd, 0x9aec8674bc76bd33, 0x5e1e707a420816ae);
    assert Rounds(State(0x4a017198de0a59e0, 0x0d52f6f62a4f59a4, 0x634cb3577b01fdc2, 0xa5224d6f55c7d9c8), 3) == State(0x81629e724c80a53a, 0xff67e927596e7174, 0xe00d309299fe2a3b, 0x1dbf8463f3718b2c);
    assert Rounds(State(0x4a017198de0a59e0, 0x0d52f6f62a4f59a4, 0x634cb3577b01fdc2, 0xa5224d6f55c7d9c8), 4) == State(0x1f9e5e35870e3071, 0xa2d3f629ebb5c575, 0xf9313ea97bbb21aa, 0xef7e96409c010599);
    assert Finish(State(0x7469686173716475, 0x6b617f6d656e6665, 0x6b7f62616d677361, 0x7b6b696e727e6c7b), 0x0706050403020100, 2, 4) == 0xab0200f58b01d137;
    assert |input| / 8 == 0;
  }

  /** Length 8: the hash is 0x93f5f5799a932462. */
  lemma ReferenceVector8()
    ensures SipHash(TestInputs[8], TestKey0, TestKey1) == CorrectedVectors[8]
  {
    var input := TestInputs[8];
    assert input == [0x00, 0x01, 0x02, 0x03, 0x04, 0x05, 0x06, 0x07];
    assert Read64LE(input, 0) == 0x0706050403020100;
    FirstBlockState();
    assert Blocks(Init(TestKey0, TestKey1), input, 1, 2) == State(0x4a017198de0a59e0, 0x0d52f6f62a4f59a4, 0x634cb3577b01fd3d, 0xa5224d6f55c7d9c8);
    assert TailWord(input) == 0x0800000000000000;
    assert Rounds(State(0x4a017198de0a59e0, 0x0d52f6f62a4f59a4, 0x634cb3577b01fd3d, 0xad224d6f55c7d9c8), 1) == State(0x655a08856055e2b6, 0x42746857d06b1a26, 0xb437093319f9ae8d, 0xc57b28aa24be42bc);
    assert Rounds(State(0x4a017198de0a59e0, 0x0d52f6f62a4f59a4, 0x634cb3577b01fd3d, 0xad224d6f55c7d9c8), 2) == State(0x81d9124023d9a50f, 0xb1d61ba5fb187052, 0x923c25dba476bcad, 0x2db69326a593860d);
    assert Rounds(State(0x89d9124023d9a50f, 0xb1d61ba5fb187052, 0x923c25dba476bc52, 0x2db69326a593860d), 1) == State(0x4bc631f307b69dcf, 0x9dc46a77ddb5740d, 0x5b0285bab8ce4b87, 0xd9ffb11efa93074c);
    assert Rounds(State(0x89d9124023d9a50f, 0xb1d61ba5fb187052, 0x923c25dba476bc52, 0x2db69326a593860d), 2) == State(0x6988de279db82796, 0x567e096ebb863cbf, 0xff4ef53799c69eb5, 0xe0de5b96f828a40f);
    assert Rounds(State(0x89d9124023d9a50f, 0xb1d61ba5fb187052, 0x923c25dba476bc52, 0x2db69326a593860d), 3) == State(0x14fa0d3bf5e789b0, 0x8095bce62dacd308, 0x3098d15ee15881b5, 0x083cb12fb6b0fec5);
    assert Rounds(State(0x89d9124023d9a50f, 0xb1d61ba5fb187052, 0x923c25dba476bc52, 0x2db69326a593860d), 4) == State(0xad8e90f6fc5c5268, 0x45c7e1ccc8aa8902, 0x51fecd245ae89226, 0x2a424967f48d6d2e);
    assert Finish(State(0x4a017198de0a59e0, 0x0d52f6f62a4f59a4, 0x634cb3577b01fd3d, 0xa5224d6f55c7d9c8), 0x0800000000000000, 2, 4) == 0x93f5f5799a932462;
    assert |input| / 8 == 1;
  }

  /** Length 9: the hash is 0x9e0082df0ba9e4b0. */
  lemma ReferenceVector9()
    ensures SipHash(TestInputs[9], TestKey0, TestKey1) == CorrectedVectors[9]
  {
    var input := TestInputs[9];
    assert input == [0x00, 0x01, 0x02, 0x03, 0x04, 0x05, 0x06, 0x07, 0x08];
    assert Read64LE(input, 0) == 0x0706050403020100;
    FirstBlockState();
    assert Blocks(Init(TestKey0, TestKey1), input, 1, 2) == State(0x4a017198de0a59e0, 0x0d52f6f62a4f59a4, 0x634cb3577b01fd3d, 0xa5224d6f55c7d9c8);
    assert TailWord(input) == 0x0900000000000008;
    assert Rounds(State(0x4a017198de0a59e0, 0x0d52f6f62a4f59a4, 0x634cb3577b01fd3d, 0xac224d6f55c7d9c0), 1) == State(0x4a5a0885605de36e, 0x43746857d06b1a3e, 0xb437092b18f9ae8d, 0xea7b29aa3bb5a364);
    assert Rounds(State(0x4a017198de0a59e0, 0x0d52f6f62a4f59a4, 0x634cb3577b01fd3d, 0xac224d6f55c7d9c0), 2) == State(0xe7e1070d859a2c67, 0x8ad61abbc3ba863a, 0xa83e87b39f76bda5, 0xcbfffe7af4cccf66);
    assert Rounds(State(0xeee1070d859a2c6f, 0x8ad61abbc3ba863a, 0xa83e87b39f76bd5a, 0xcbfffe7af4cccf66), 1) == State(0xd399258bd4dc6908, 0x9c62eccb6a300573, 0xadd770b32f1edfec, 0x8fd24123332d2186);
    assert Rounds(State(0xeee1070d859a2c6f, 0x8ad61abbc3ba863a, 0xa83e87b39f76bd5a, 0xcbfffe7af4cccf66), 2) == State(0xbb96f176b3c6a0f7, 0x8e2d4fa39a007ba3, 0xa1ee1f69700f30e7, 0xe4fe882767c931a7);
    assert Rounds(State(0xeee1070d859a2c6f, 0x8ad61abbc3ba863a, 0xa83e87b39f76bd5a, 0xcbfffe7af4cccf66), 3) == State(0x5c92dcf43043c78a, 0x03a85c8dc0340f8d, 0x1a8bcfed671cd9eb, 0x57ae1304fe421ef2);
    assert Rounds(State(0xeee1070d859a2c6f, 0x8ad61abbc3ba863a, 0xa83e87b39f76bd5a, 0xcbfffe7af4cccf66), 4) == State(0x51b4f3c7dbe7e8f4, 0xdeea87753821a76a, 0xd6e5703fdde46479, 0xc7bb8652358bcf57);
    assert Finish(State(0x4a017198de0a59e0, 0x0d52f6f62a4f59a4, 0x634cb3577b01fd3d, 0xa5224d6f55c7d9c8), 0x0900000000000008, 2, 4) == 0x9e0082df0ba9e4b0;
    assert |input| / 8 == 1;
  }

  /** Length 10: the hash is 0x7a5dbbc594ddb9f3. */
  lemma ReferenceVector10()
    ensures SipHash(TestInputs[10], TestKey0, TestKey1) == CorrectedVectors[10]
  {
    var input := TestInputs[10];
    assert input == [0x00, 0x01, 0x02, 0x03, 0x04, 0x05, 0x06, 0x07, 0x08, 0x09];
    assert Read64LE(input, 0) == 0x0706050403020100;
    FirstBlockState();
    assert Blocks(Init(TestKey0, TestKey1), input, 1, 2) == State(0x4a017198de0a59e0, 0x0d52f6f62a4f59a4, 0x634cb3577b01fd3d, 0xa5224d6f55c7d9c8);
    assert TailWord(input) == 0x0a00000000000908;
    assert Rounds(State(0x4a017198de0a59e0, 0x0d52f6f62a4f59a4, 0x634cb3577b01fd3d, 0xaf224d6f55c7d0c0), 1) == State(0x675a0885575dcb6e, 0x40746857d06b133e, 0xb437002b1bf9ae8d, 0xc77a09a90cb62b64);
    assert Rounds(State(0x4a017198de0a59e0, 0x0d52f6f62a4f59a4, 0x634cb3577b01fd3d, 0xaf224d6f55c7d0c0), 2) == State(0x99e0e40eab998f68, 0xb3d51ffa431aa51a, 0x6e5ef093a67594a4, 0x35a09d6d7af7cc68);
    assert Rounds(State(0x93e0e40eab998660, 0xb3d51ffa431aa51a, 0x6e5ef093a675945b, 0x35a09d6d7af7cc68), 1) == State(0x2d47207134bb596b, 0x109fae4221851551, 0xdb84ddc38848da6c, 0xb39a80db98dc8b35);
    assert Rounds(State(0x93e0e40eab998660, 0xb3d51ffa431aa51a, 0x6e5ef093a675945b, 0x35a09d6d7af7cc68), 2) == State(0x660534ffe7f7a4ee, 0x424a00f78f50220d, 0x160fb250574de923, 0xae7076e520965c76);
    assert Rounds(State(0x93e0e40eab998660, 0xb3d51ffa431aa51a, 0x6e5ef093a675945b, 0x35a09d6d7af7cc68), 3) == State(0x29acd09ed3e221e0, 0x24eb0b5e378f64e8, 0xeaeab44bacd1ed52, 0x1dc9a2c3aed46d41);
    assert Rounds(State(0x93e0e40eab998660, 0xb3d51ffa431aa51a, 0x6e5ef093a675945b, 0x35a09d6d7af7cc68), 4) == State(0xb5e980a3857f2357, 0x02a9bbc547388310, 0x4392dce838b0741c, 0x8e8f5c4b6e2a6da8);
    assert Finish(State(0x4a017198de0a59e0, 0x0d52f6f62a4f59a4, 0x634cb3577b01fd3d, 0xa5224d6f55c7d9c8), 0x0a00000000000908, 2, 4) == 0x7a5dbbc594ddb9f3;
    assert |input| / 8 == 1;
  }

  /** `siphash24` of every test message is the corrected value for its length. */
  lemma CorrectedVectorsHold(len: nat)
    requires len < |CorrectedVectors|
    ensures SipHash(TestInputs[len], TestKey0, TestKey1) == CorrectedVectors[len]
  {
    match len
    case 0 => ReferenceVector0();
    case 1 => ReferenceVector1();
    case 2 => ReferenceVector2();
    case 3 => ReferenceVector3();
    case 4 => ReferenceVector4();
    case 5 => ReferenceVector5();
    case 6 => ReferenceVector6();
    case 7 => ReferenceVector7();
    case 8 => ReferenceVector8();
    case 9 => ReferenceVector9();
    case 10 => ReferenceVector10();
  }

  /** The test's `assert_eq!` fails for every listed length: no listed value is the hash of its message. */
  lemma ListedVectorsDisagree(len: nat)
    requires len < |ListedVectors|
    ensures SipHash(TestInputs[len], TestKey0, TestKey1) != ListedVectors[len]
  {
    CorrectedVectorsAreByteSwapped(len);
    CorrectedVectorsHold(len);
  }
}
