/** MurmurHash2 (Austin Appleby) as `calcHash` uses it: a 32-bit digest of a
    byte string, seeded with the string's length, mixing four little-endian
    bytes at a time, folding in the one to three trailing bytes and finishing
    with an avalanche.  All arithmetic wraps around modulo 2^32, which is what
    `bv32` does. */
module MurmurHash {

  type byte = bv8

  /** The mixing multiplier `m`. */
  const M: bv32 := 0x5bd1e995
  /** The mixing shift `r`. */
  const R: nat := 24

  /** The little-endian assembly of four bytes into one 32-bit word. */
  function Chunk(b0: byte, b1: byte, b2: byte, b3: byte): bv32
  {
    ((b3 as bv32) << 24) | ((b2 as bv32) << 16) | ((b1 as bv32) << 8) | (b0 as bv32)
  }

  /** Byte `i` (0 = least significant) of a 32-bit word. */
  function ByteOf(w: bv32, i: nat): byte
    requires i < 4
  {
    match i
    case 0 => (w & 0xFF) as byte
    case 1 => ((w >> 8) & 0xFF) as byte
    case 2 => ((w >> 16) & 0xFF) as byte
    case 3 => (w >> 24) as byte
  }

  /** `x *= m` on a `uint32_t`: multiplication modulo 2^32. */
  function TimesM(x: bv32): bv32
  {
    x * M
  }

  /** `x ^= x >> n` on a `uint32_t`. */
  function XorShr(x: bv32, n: nat): bv32
    requires n < 32
  {
    x ^ (x >> n)
  }

  /** `h ^= b << n`: fold one trailing byte in at bit position `n`. */
  function XorIn(h: bv32, b: byte, n: nat): bv32
    requires n < 32
  {
    h ^ ((b as bv32) << n)
  }

  /** One round of the body loop: mix the chunk `k` into the state `h`. */
  function MixChunk(h: bv32, k: bv32): bv32
  {
    TimesM(h) ^ TimesM(XorShr(TimesM(k), R))
  }

  /** The state after mixing every whole four-byte chunk of `data` into `h`,
      first chunk first; the one to three bytes after the last whole chunk
      are left for `Tail`. */
  function Body(h: bv32, data: seq<byte>, i: nat): bv32
    requires i <= |data|
    decreases |data| - i
  {
    if |data| - i < 4 then h
    else Body(MixChunk(h, Chunk(data[i], data[i + 1], data[i + 2], data[i + 3])), data, i + 4)
  }

  /** The fall-through `switch` on the one to three bytes left over: each
      present byte is xor-ed in at its little-endian position, and the state
      is multiplied by `M` only when at least one byte is left. */
  function Tail(h: bv32, rest: seq<byte>): bv32
    requires |rest| < 4
  {
    var h3 := if |rest| == 3 then XorIn(h, rest[2], 16) else h;
    var h2 := if |rest| >= 2 then XorIn(h3, rest[1], 8) else h3;
    if |rest| >= 1 then TimesM(XorIn(h2, rest[0], 0)) else h2
  }

  /** The final avalanche mix. */
  function Avalanche(h: bv32): bv32
  {
    XorShr(TimesM(XorShr(h, 13)), 15)
  }

  /** The seed `uint32_t h = len`: the length counted up in 32-bit
      arithmetic, so the length modulo 2^32. */
  function Seed(len: nat): bv32
  {
    if len == 0 then 0 else Seed(len - 1) + 1
  }

  /** The number of bytes the body loop consumes: the whole chunks. */
  function BodyLength(len: nat): (n: nat)
    ensures n <= len && n % 4 == 0 && len - n < 4
  {
    len / 4 * 4
  }

  /** The digest `calcHash` computes, as a function of the bytes alone. */
  function Hash(data: seq<byte>): bv32
  {
    Avalanche(Tail(Body(Seed(|data|), data, 0), data[BodyLength(|data|)..]))
  }

  /** `calcHash` on the portable little-endian path: the body loop over
      whole chunks, then the tail and the avalanche.  It computes exactly
      `Hash(key)`. */
  method CalcHash(key: seq<byte>) returns (h: bv32)
    ensures h == Hash(key)
  {
    h := Seed(|key|);
    var len: nat := |key|;
    var pos: nat := 0;
    while len >= 4
      invariant pos + len == |key| && pos % 4 == 0
      invariant Body(h, key, pos) == Body(Seed(|key|), key, 0)
    {
      var k := Chunk(key[pos], key[pos + 1], key[pos + 2], key[pos + 3]);
      k := TimesM(k);
      k := XorShr(k, R);
      k := TimesM(k);
      h := TimesM(h);
      h := h ^ k;
      pos := pos + 4;
      len := len - 4;
    }
    assert pos == BodyLength(|key|);
    // the fall-through switch on len & 3 (here len < 4), then the final mixes
    h := Avalanche(Tail(h, key[pos..]));
  }

  /** Each chunk is read little-endian: byte `i` of the word is `data[i]`. */
  lemma ChunkLittleEndian(b0: byte, b1: byte, b2: byte, b3: byte)
    ensures ByteOf(Chunk(b0, b1, b2, b3), 0) == b0
    ensures ByteOf(Chunk(b0, b1, b2, b3), 1) == b1
    ensures ByteOf(Chunk(b0, b1, b2, b3), 2) == b2
    ensures ByteOf(Chunk(b0, b1, b2, b3), 3) == b3
  {
  }

  /** ...and every word is the assembly of its own four bytes. */
  lemma ChunkOfBytes(w: bv32)
    ensures Chunk(ByteOf(w, 0), ByteOf(w, 1), ByteOf(w, 2), ByteOf(w, 3)) == w
  {
  }

  /** The tail multiplies by `M` exactly when one to three bytes are left;
      with none left it is the identity. */
  lemma TailOfNothing(h: bv32)
    ensures Tail(h, []) == h
  {
  }

  /** The digest of the empty string is 0. */
  lemma HashOfEmpty()
    ensures Hash([]) == 0
  {
  }

  /** Reference digest of MurmurHash2 with seed 0: "a", a one-byte tail. */
  lemma HashOfA()
    ensures Hash([0x61]) == 0x92685f5e
  {
    var a: seq<byte> := [0x61];
    assert a[..0] == [] && a[0..] == a;
    assert Seed(1) == 1;
    assert XorIn(1, 0x61, 0) == 0x60;
    assert TimesM(0x60) == 0x6eb797e0;
    assert XorShr(0x6eb797e0, 13) == 0x6eb4e25c;
    assert TimesM(0x6eb4e25c) == 0x92697b8c;
    assert XorShr(0x92697b8c, 15) == 0x92685f5e;
  }

  /** Reference digest of "foo": a three-byte tail falling through all three
      cases of the `switch`. */
  lemma HashOfFoo()
    ensures Hash([0x66, 0x6f, 0x6f]) == 0x8fea6375
  {
    var foo: seq<byte> := [0x66, 0x6f, 0x6f];
    assert foo[..0] == [] && foo[0..] == foo;
    assert Seed(3) == 3;
    assert XorIn(3, 0x6f, 16) == 0x6f0003;
    assert XorIn(0x6f0003, 0x6f, 8) == 0x6f6f03;
    assert XorIn(0x6f6f03, 0x66, 0) == 0x6f6f65;
    assert TimesM(0x6f6f65) == 0x85b3c2c9;
    assert XorShr(0x85b3c2c9, 13) == 0x85b7ef57;
    assert TimesM(0x85b7ef57) == 0x8feb7ca3;
    assert XorShr(0x8feb7ca3, 15) == 0x8fea6375;
  }

  /** Reference digest of "hello": one whole chunk through the body loop,
      then a one-byte tail. */
  lemma HashOfHello()
    ensures Hash([0x68, 0x65, 0x6c, 0x6c, 0x6f]) == 0xe56129cb
  {
    var hello: seq<byte> := [0x68, 0x65, 0x6c, 0x6c, 0x6f];
    var chunk := hello[..4];
    assert chunk == [0x68, 0x65, 0x6c, 0x6c] && chunk[4..] == [];
    assert hello[4..] == [0x6f];
    assert Seed(5) == 5;
    assert Chunk(0x68, 0x65, 0x6c, 0x6c) == 0x6c6c6568;
    assert TimesM(0x6c6c6568) == 0x854aad88;
    assert XorShr(0x854aad88, R) == 0x854aad0d;
    assert TimesM(0x854aad0d) == 0x72948d91;
    assert TimesM(5) == 0xcb198fe9;
    assert MixChunk(5, 0x6c6c6568) == 0xb98d0278;
    assert Body(0xb98d0278, hello, 4) == 0xb98d0278;
    assert Body(5, hello, 0) == 0xb98d0278;
    assert XorIn(0xb98d0278, 0x6f, 0) == 0xb98d0217;
    assert TimesM(0xb98d0217) == 0x37c02663;
    assert XorShr(0x37c02663, 13) == 0x37c19862;
    assert TimesM(0x37c19862) == 0xe560e30a;
    assert XorShr(0xe560e30a, 15) == 0xe56129cb;
  }
}
