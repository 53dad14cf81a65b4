/** The Salsa20 stream cipher as the module applies it: the input is cut
    into 64-byte blocks, block n is XORed with the keystream block of
    counter n, and the last block may be short. Encryption and decryption
    are the same operation. */
module Salsa20 {
  import opened Bits
  import opened CipherInterface
  import opened Salsa20Core

  /** Inputs `salsa20Cipher` can be given: a `std::vector` holds at most
      PTRDIFF_MAX = 2^63 - 1 elements, so `blockCounter * 64` never wraps
      around in `uint64_t`. */
  const MaxInput: nat := 0x8000_0000_0000_0000

  /** The number of blocks `salsa20Cipher` generates for `len` bytes. */
  function BlockCount(len: nat): nat
  {
    (len + 63) / 64
  }

  lemma BlockCountBounds(len: nat)
    ensures len <= 64 * BlockCount(len) < len + 64
  {
    DivModUnique(len + 63, 64, (len + 63) / 64, (len + 63) % 64);
  }

  /** The keystream of `count` blocks: the blocks for counters
      0, 1, ..., count - 1, one after the other. */
  function Keystream(key: seq<byte>, nonce: seq<byte>, count: nat): (r: seq<byte>)
    requires ValidKeyLength(key) && |nonce| >= 8 && count <= 0x1_0000_0000_0000_0000
    ensures |r| == 64 * count
  {
    if count == 0 then [] else Keystream(key, nonce, count - 1) + Block(key, nonce, count - 1)
  }

  /** The output of the cipher: the input XORed with the keystream of as
      many blocks as it takes to cover it. */
  function Stream(input: seq<byte>, key: seq<byte>, nonce: seq<byte>): (r: seq<byte>)
    requires ValidKeyLength(key) && |nonce| >= 8 && |input| < MaxInput
    ensures |r| == |input|
  {
    BlockCountBounds(|input|);
    XorBytes(input, Keystream(key, nonce, BlockCount(|input|)))
  }

  /** What `salsa20Cipher` returns, as a value: the nonce is checked first
      (an absent nonce, an empty one and any length other than 8 are all
      rejected), then the key length. */
  function Apply(input: seq<byte>, key: seq<byte>, nonce: Option<seq<byte>>): (r: Result<seq<byte>>)
    requires |input| < MaxInput
    ensures r == Failure(InvalidNonce) <==> nonce.None? || |nonce.value| != 8
    ensures r == Failure(InvalidKey) <==> nonce.Some? && |nonce.value| == 8 && !ValidKeyLength(key)
    ensures r.Success? ==> |r.value| == |input|
  {
    if nonce.None? || |nonce.value| == 0 || |nonce.value| != 8 then Failure(InvalidNonce)
    else if !(|key| == 16 || |key| == 32) then Failure(InvalidKey)
    else Success(Stream(input, key, nonce.value))
  }

  lemma BlockPosition(n: nat, i: nat)
    requires i < 64
    ensures (n * 64 + i) / 64 == n && (n * 64 + i) % 64 == i
  {
    DivModUnique(n * 64 + i, 64, n, i);
  }

  /** Keystream byte i is byte i % 64 of the block with counter i / 64. */
  lemma {:induction false} KeystreamAt(key: seq<byte>, nonce: seq<byte>, count: nat, i: nat)
    requires ValidKeyLength(key) && |nonce| >= 8 && count <= 0x1_0000_0000_0000_0000
    requires i < 64 * count
    ensures i / 64 < count
    ensures Keystream(key, nonce, count)[i] == Block(key, nonce, i / 64)[i % 64]
  {
    var c := count - 1;
    if i < 64 * c {
      KeystreamAt(key, nonce, c, i);
    } else {
      BlockPosition(c, i - 64 * c);
      assert i == c * 64 + (i - 64 * c);
    }
  }

  /** The keystream of fewer blocks is a prefix of the keystream of more. */
  lemma {:induction false} KeystreamPrefix(key: seq<byte>, nonce: seq<byte>, c1: nat, c2: nat)
    requires ValidKeyLength(key) && |nonce| >= 8 && c1 <= c2 <= 0x1_0000_0000_0000_0000
    ensures Keystream(key, nonce, c1) == Keystream(key, nonce, c2)[..64 * c1]
    decreases c2
  {
    var k2 := Keystream(key, nonce, c2);
    if c1 == c2 {
      assert k2[..64 * c1] == k2;
    } else {
      var k := Keystream(key, nonce, c2 - 1);
      KeystreamPrefix(key, nonce, c1, c2 - 1);
      PrefixOfConcat(k, Block(key, nonce, c2 - 1), 64 * c1);
    }
  }

  lemma PrefixOfConcat(a: seq<byte>, b: seq<byte>, m: nat)
    requires m <= |a|
    ensures (a + b)[..m] == a[..m]
  {
  }

  /** Bytes 64n .. 64n + 63 of the keystream are the block with counter n. */
  lemma BlockInKeystream(key: seq<byte>, nonce: seq<byte>, count: nat, n: nat)
    requires ValidKeyLength(key) && |nonce| >= 8 && n < count <= 0x1_0000_0000_0000_0000
    ensures Keystream(key, nonce, count)[64 * n..64 * n + 64] == Block(key, nonce, n)
  {
    KeystreamPrefix(key, nonce, n + 1, count);
    SliceOfPrefix(Keystream(key, nonce, count), Keystream(key, nonce, n + 1), 64 * n + 64, 64 * n);
    assert Keystream(key, nonce, n + 1) == Keystream(key, nonce, n) + Block(key, nonce, n);
    SuffixOfConcat(Keystream(key, nonce, n), Block(key, nonce, n));
  }

  lemma SliceOfPrefix(s: seq<byte>, t: seq<byte>, m: nat, a: nat)
    requires a <= m <= |s| && t == s[..m]
    ensures s[a..m] == t[a..]
  {
  }

  lemma SuffixOfConcat(a: seq<byte>, b: seq<byte>)
    ensures (a + b)[|a|..] == b
  {
  }

  /** Output byte i is input byte i XORed with byte i % 64 of the block
      with counter i / 64. */
  lemma StreamAt(input: seq<byte>, key: seq<byte>, nonce: seq<byte>, i: nat)
    requires ValidKeyLength(key) && |nonce| >= 8 && |input| < MaxInput && i < |input|
    ensures i / 64 < 0x1_0000_0000_0000_0000
    ensures Stream(input, key, nonce)[i] == XorByte(input[i], Block(key, nonce, i / 64)[i % 64])
  {
    BlockCountBounds(|input|);
    KeystreamAt(key, nonce, BlockCount(|input|), i);
  }

  lemma TakeStep(s: seq<byte>, a: nat, b: nat, x: seq<byte>, piece: seq<byte>)
    requires a <= b <= |s| && x == s[..a] && piece == s[a..b]
    ensures x + piece == s[..b]
  {
    assert s[..b] == s[..a] + s[a..b];
  }

  lemma CounterInRange(n: nat, len: nat, size: nat)
    requires 0 < len && n * 64 + len <= size < MaxInput
    ensures n < BlockCount(size) && BlockCount(size) <= 0x1_0000_0000_0000_0000
  {
    BlockCountBounds(size);
  }

  /** One iteration of the block loop extends the output by the stream
      bytes of block n. */
  lemma StreamStep(input: seq<byte>, key: seq<byte>, nonce: seq<byte>, n: u64, len: nat,
                   before: seq<byte>, piece: seq<byte>)
    requires ValidKeyLength(key) && |nonce| >= 8 && |input| < MaxInput
    requires 0 < len <= 64 && n * 64 + len <= |input|
    requires before == Stream(input, key, nonce)[..n * 64]
    requires piece == XorBytes(input[n * 64..n * 64 + len], Block(key, nonce, n))
    ensures before + piece == Stream(input, key, nonce)[..n * 64 + len]
  {
    var a, b := n * 64, n * 64 + len;
    CounterInRange(n, len, |input|);
    var count := BlockCount(|input|);
    var ks := Keystream(key, nonce, count);
    BlockCountBounds(|input|);
    XorBytesSlice(input, ks, a, b);
    BlockInKeystream(key, nonce, count, n);
    assert ks[a..b][..len] == ks[a..a + 64][..len];
    XorBytesUsesPadPrefix(input[a..b], ks[a..b], Block(key, nonce, n));
    TakeStep(Stream(input, key, nonce), a, b, before, piece);
  }

  /** The inner loop of `salsa20Cipher`: pushes `blockLength` input bytes,
      each XORed with the keystream byte at the same offset in the block. */
  method PushMasked(outputText: seq<byte>, inputText: seq<byte>, currentBlockStart: nat, blockLength: nat,
                    keystreamBlock: seq<byte>)
    returns (result: seq<byte>)
    requires currentBlockStart + blockLength <= |inputText| && blockLength <= |keystreamBlock|
    ensures result == outputText + XorBytes(inputText[currentBlockStart..currentBlockStart + blockLength], keystreamBlock)
  {
    ghost var data := inputText[currentBlockStart..currentBlockStart + blockLength];
    result := outputText;
    for i := 0 to blockLength
      invariant result == outputText + XorBytes(data[..i], keystreamBlock)
    {
      assert data[..i + 1] == data[..i] + [inputText[currentBlockStart + i]];
      result := result + [XorByte(inputText[currentBlockStart + i], keystreamBlock[i])];
    }
    assert data[..blockLength] == data;
  }

  /** `salsa20Cipher`. The key length is checked here and again inside
      `blockGenerator`; each block's keystream is generated in full and
      only its first `blockLength` bytes are used. */
  method Salsa20Cipher(inputText: seq<byte>, key: seq<byte>, pNonce: Option<seq<byte>>)
    returns (r: Result<seq<byte>>)
    requires |inputText| < MaxInput
    ensures r == Apply(inputText, key, pNonce)
  {
    if pNonce.None? || |pNonce.value| == 0 || |pNonce.value| != 8 {
      return Failure(InvalidNonce);
    }
    var nonce := pNonce.value;
    if !(|key| == 16 || |key| == 32) {
      return Failure(InvalidKey);
    }
    ghost var expected := Stream(inputText, key, nonce);
    var outputText: seq<byte> := [];
    var blockCounter: u64 := 0;
    while blockCounter * 64 < |inputText|
      invariant blockCounter * 64 <= |inputText| + 63
      invariant |outputText| == if blockCounter * 64 < |inputText| then blockCounter * 64 else |inputText|
      invariant outputText == expected[..|outputText|]
      decreases |inputText| - blockCounter * 64
    {
      var currentBlockStart := blockCounter * 64;
      var currentBlockEnd := if currentBlockStart + 64 < |inputText| then currentBlockStart + 64 else |inputText|;
      var blockLength := currentBlockEnd - currentBlockStart;
      var keystreamBlock := BlockGenerator(key, nonce, blockCounter);
      ghost var before := outputText;
      ghost var piece := XorBytes(inputText[currentBlockStart..currentBlockEnd], keystreamBlock.value);
      outputText := PushMasked(outputText, inputText, currentBlockStart, blockLength, keystreamBlock.value);
      StreamStep(inputText, key, nonce, blockCounter, blockLength, before, piece);
      blockCounter := blockCounter + 1;
    }
    assert expected[..|inputText|] == expected;
    r := Success(outputText);
  }

  /** Applying the cipher twice with the same key and nonce gives back the
      input: the keystream does not depend on the data. */
  lemma StreamSelfInverse(p: seq<byte>, key: seq<byte>, nonce: seq<byte>)
    requires ValidKeyLength(key) && |nonce| >= 8 && |p| < MaxInput
    ensures Stream(Stream(p, key, nonce), key, nonce) == p
  {
    BlockCountBounds(|p|);
    XorBytesSelfInverse(p, Keystream(key, nonce, BlockCount(|p|)));
  }

  /** The cipher works byte by byte: the output for a prefix of the input is
      the same prefix of the output. */
  lemma StreamPrefix(p: seq<byte>, key: seq<byte>, nonce: seq<byte>, k: nat)
    requires ValidKeyLength(key) && |nonce| >= 8 && |p| < MaxInput && k <= |p|
    ensures Stream(p[..k], key, nonce) == Stream(p, key, nonce)[..k]
  {
    BlockCountBounds(k);
    BlockCountBounds(|p|);
    var ck, cp := BlockCount(k), BlockCount(|p|);
    var ksk, ksp := Keystream(key, nonce, ck), Keystream(key, nonce, cp);
    XorBytesSlice(p, ksp, 0, k);
    KeystreamPrefix(key, nonce, ck, cp);
    assert ksk[..k] == ksp[0..k][..k];
    assert p[0..k] == p[..k];
    XorBytesUsesPadPrefix(p[..k], ksk, ksp[0..k]);
  }

  /** Encrypting zero bytes yields the keystream itself. */
  lemma StreamOfZeros(key: seq<byte>, nonce: seq<byte>, n: nat)
    requires ValidKeyLength(key) && |nonce| >= 8 && n < MaxInput
    ensures BlockCount(n) <= 0x1_0000_0000_0000_0000 && n <= 64 * BlockCount(n)
    ensures Stream(seq(n, _ => 0), key, nonce) == Keystream(key, nonce, BlockCount(n))[..n]
  {
    BlockCountBounds(n);
    XorBytesZeros(n, Keystream(key, nonce, BlockCount(n)));
  }

  /** Two messages of one length under the same key and nonce: XORing the
      two outputs gives the XOR of the two inputs, the keystream cancels. */
  lemma KeystreamReuse(p: seq<byte>, q: seq<byte>, key: seq<byte>, nonce: seq<byte>)
    requires ValidKeyLength(key) && |nonce| >= 8 && |p| < MaxInput && |q| == |p|
    ensures XorBytes(Stream(p, key, nonce), Stream(q, key, nonce)) == XorBytes(p, q)
  {
    BlockCountBounds(|p|);
    XorBytesReuse(p, q, Keystream(key, nonce, BlockCount(|p|)));
  }

  /** `createCipherModule`: the same function for both directions. */
  function CreateCipherModule(): CipherModule
  {
    CipherModule("SALSA20", Apply, Apply)
  }

  lemma ModuleRoundTrips()
    ensures RoundTrips(CreateCipherModule())
    ensures PreservesLength(CreateCipherModule())
  {
    var m := CreateCipherModule();
    forall p, k, n | m.encrypt.requires(p, k, n) && m.encrypt(p, k, n).Success?
      ensures m.decrypt.requires(m.encrypt(p, k, n).value, k, n)
      ensures m.decrypt(m.encrypt(p, k, n).value, k, n) == Success(p)
    {
      StreamSelfInverse(p, k, n.value);
    }
  }

  lemma ModuleIsSymmetric()
    ensures CreateCipherModule().name == "SALSA20"
    ensures CreateCipherModule().encrypt == CreateCipherModule().decrypt
  {
  }
}
