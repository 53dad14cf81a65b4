/** The autokey cipher: the keystream byte for position 0 is `key[0]`, and
    for every later position it is the previous PLAINTEXT byte; bytes are
    combined by addition modulo 256. Decryption subtracts, feeding back the
    bytes it has already recovered. */
module Autokey {
  import opened Bits
  import opened CipherInterface

  /** `(x + y) % 256`, computed on `int` and cast back to a byte. */
  function AddByte(x: byte, y: byte): byte
  {
    (x + y) % 256
  }

  /** `(256 + x - y) % 256`: the `256 +` keeps the `int` operand
      non-negative before the remainder. */
  function SubByte(x: byte, y: byte): byte
  {
    (256 + x - y) % 256
  }

  lemma SubAddCancel(x: byte, y: byte)
    ensures SubByte(AddByte(x, y), y) == x
  {
  }

  /** Subtraction is injective in either operand. */
  lemma SubByteInjectiveLeft(x1: byte, x2: byte, y: byte)
    requires x1 != x2
    ensures SubByte(x1, y) != SubByte(x2, y)
  {
  }

  lemma SubByteInjective(c: byte, y1: byte, y2: byte)
    requires y1 != y2
    ensures SubByte(c, y1) != SubByte(c, y2)
  {
  }

  /** Addition modulo 256 is injective in either operand. */
  lemma AddByteInjective(x1: byte, x2: byte, y: byte)
    requires x1 != x2
    ensures AddByte(x1, y) != AddByte(x2, y)
    ensures AddByte(y, x1) != AddByte(y, x2)
  {
  }

  /** The keystream byte for position i of the plaintext `p`. */
  function Gamma(p: seq<byte>, key: seq<byte>, i: nat): byte
    requires |key| >= 1 && i < |p|
  {
    if i == 0 then key[0] else p[i - 1]
  }

  /** Encryption: every output byte depends only on its own plaintext byte and
      on its predecessor (or on `key[0]` at position 0). */
  function Encrypt(p: seq<byte>, key: seq<byte>): (c: seq<byte>)
    requires |key| >= 1
    ensures |c| == |p|
  {
    seq(|p|, i requires 0 <= i < |p| => AddByte(p[i], Gamma(p, key, i)))
  }

  /** Decryption: strictly sequential, each byte subtracts the byte recovered
      just before it. Defined on prefixes: the last byte uses the decryption of
      everything before it. */
  function Decrypt(c: seq<byte>, key: seq<byte>): (d: seq<byte>)
    requires |key| >= 1
    ensures |d| == |c|
    decreases |c|
  {
    if |c| == 0 then []
    else
      var prev := Decrypt(c[..|c| - 1], key);
      prev + [SubByte(c[|c| - 1], if |c| == 1 then key[0] else prev[|c| - 2])]
  }

  /** Decrypting a prefix of the ciphertext yields the prefix of the plaintext. */
  lemma {:induction false} DecryptPrefix(c: seq<byte>, key: seq<byte>, j: nat)
    requires |key| >= 1 && j <= |c|
    ensures Decrypt(c[..j], key) == Decrypt(c, key)[..j]
    decreases |c|
  {
    if j < |c| {
      assert c[..|c| - 1][..j] == c[..j];
      DecryptPrefix(c[..|c| - 1], key, j);
    } else {
      assert c[..j] == c;
    }
  }

  /** Byte i of the decryption, using the byte recovered before it. */
  lemma DecryptAt(c: seq<byte>, key: seq<byte>, i: nat)
    requires |key| >= 1 && i < |c|
    ensures Decrypt(c, key)[i] ==
            SubByte(c[i], if i == 0 then key[0] else Decrypt(c, key)[i - 1])
  {
    DecryptPrefix(c, key, i + 1);
    assert c[..i + 1][..i] == c[..i];
    if i > 0 {
      DecryptPrefix(c, key, i);
    }
  }

  /** Encrypting a prefix of the plaintext yields the prefix of the ciphertext. */
  lemma EncryptPrefix(p: seq<byte>, key: seq<byte>, j: nat)
    requires |key| >= 1 && j <= |p|
    ensures Encrypt(p[..j], key) == Encrypt(p, key)[..j]
  {
  }

  /** Decryption undoes encryption. */
  lemma {:induction false} RoundTrip(p: seq<byte>, key: seq<byte>)
    requires |key| >= 1
    ensures Decrypt(Encrypt(p, key), key) == p
  {
    var c := Encrypt(p, key);
    var d := Decrypt(c, key);
    var i := 0;
    while i < |p|
      invariant 0 <= i <= |p|
      invariant forall j :: 0 <= j < i ==> d[j] == p[j]
    {
      DecryptAt(c, key, i);
      SubAddCancel(p[i], Gamma(p, key, i));
      i := i + 1;
    }
  }

  /** Encryption reads nothing of the key but its first byte. */
  lemma EncryptUsesFirstKeyByte(p: seq<byte>, k1: seq<byte>, k2: seq<byte>)
    requires |k1| >= 1 && |k2| >= 1 && k1[0] == k2[0]
    ensures Encrypt(p, k1) == Encrypt(p, k2)
  {
  }

  /** Neither does decryption. */
  lemma {:induction false} DecryptUsesFirstKeyByte(c: seq<byte>, k1: seq<byte>, k2: seq<byte>)
    requires |k1| >= 1 && |k2| >= 1 && k1[0] == k2[0]
    ensures Decrypt(c, k1) == Decrypt(c, k2)
    decreases |c|
  {
    if |c| > 0 {
      DecryptUsesFirstKeyByte(c[..|c| - 1], k1, k2);
    }
  }

  /** Changing plaintext byte i changes ciphertext bytes i and i + 1 and no
      other: the plaintext feedback reaches exactly one position ahead. */
  lemma EncryptChangeIsLocal(p: seq<byte>, key: seq<byte>, i: nat, v: byte)
    requires |key| >= 1 && i < |p| && v != p[i]
    ensures Encrypt(p[i := v], key)[i] != Encrypt(p, key)[i]
    ensures i + 1 < |p| ==> Encrypt(p[i := v], key)[i + 1] != Encrypt(p, key)[i + 1]
    ensures forall j :: 0 <= j < |p| && j != i && j != i + 1 ==>
              Encrypt(p[i := v], key)[j] == Encrypt(p, key)[j]
  {
    var p' := p[i := v];
    AddByteInjective(v, p[i], Gamma(p, key, i));
    assert Gamma(p', key, i) == Gamma(p, key, i);
    if i + 1 < |p| {
      AddByteInjective(v, p[i], p[i + 1]);
      assert Gamma(p', key, i + 1) == v && Gamma(p, key, i + 1) == p[i];
    }
    forall j | 0 <= j < |p| && j != i && j != i + 1
      ensures Encrypt(p', key)[j] == Encrypt(p, key)[j]
    {
      assert Gamma(p', key, j) == Gamma(p, key, j);
    }
  }

  /** Changing ciphertext byte i changes every recovered byte from i on: the
      change travels down the chain of decrypted bytes. */
  lemma {:induction false} DecryptChangePropagates(c: seq<byte>, key: seq<byte>, i: nat, v: byte, j: nat)
    requires |key| >= 1 && i <= j < |c| && v != c[i]
    ensures Decrypt(c[i := v], key)[j] != Decrypt(c, key)[j]
    decreases j
  {
    var c' := c[i := v];
    var d, d' := Decrypt(c, key), Decrypt(c', key);
    DecryptAt(c, key, j);
    DecryptAt(c', key, j);
    if j == i {
      if i > 0 {
        DecryptChangeKeepsEarlier(c, key, i, v);
        assert d'[..i][i - 1] == d[..i][i - 1];
      }
      var g := if i == 0 then key[0] else d[i - 1];
      assert d[i] == SubByte(c[i], g) && d'[i] == SubByte(v, g);
      SubByteInjectiveLeft(v, c[i], g);
    } else {
      DecryptChangePropagates(c, key, i, v, j - 1);
      assert d[j] == SubByte(c[j], d[j - 1]) && d'[j] == SubByte(c[j], d'[j - 1]);
      SubByteInjective(c[j], d'[j - 1], d[j - 1]);
    }
  }

  /** ... and leaves the recovered bytes before i alone. */
  lemma DecryptChangeKeepsEarlier(c: seq<byte>, key: seq<byte>, i: nat, v: byte)
    requires |key| >= 1 && i < |c|
    ensures Decrypt(c[i := v], key)[..i] == Decrypt(c, key)[..i]
  {
    DecryptPrefix(c, key, i);
    DecryptPrefix(c[i := v], key, i);
    assert c[i := v][..i] == c[..i];
  }

  /** An example: [10, 20, 5] under key [100]. */
  lemma Example()
    ensures Encrypt([10, 20, 5], [100]) == [110, 30, 25]
    ensures Decrypt([110, 30, 25], [100]) == [10, 20, 5]
  {
    assert Encrypt([10, 20, 5], [100]) == [110, 30, 25];
    RoundTrip([10, 20, 5], [100]);
  }

  /** `autokeyCipher`. Index 0 of the input and of the key is written and read
      without a bounds check, so both must be non-empty. */
  method AutokeyCipher(inputText: seq<byte>, key: seq<byte>, pNonce: Option<seq<byte>>)
    returns (cipherText: seq<byte>)
    requires |inputText| >= 1 && |key| >= 1
    ensures |cipherText| == |inputText|
    ensures cipherText[0] == AddByte(inputText[0], key[0])
    ensures forall i :: 1 <= i < |inputText| ==>
              cipherText[i] == AddByte(inputText[i], inputText[i - 1])
    ensures cipherText == Encrypt(inputText, key)
  {
    var buffer := new byte[|inputText|];
    buffer[0] := AddByte(inputText[0], key[0]);
    for i := 1 to |inputText|
      invariant buffer[0] == AddByte(inputText[0], key[0])
      invariant forall j :: 1 <= j < i ==> buffer[j] == AddByte(inputText[j], inputText[j - 1])
    {
      buffer[i] := AddByte(inputText[i], inputText[i - 1]);
    }
    cipherText := buffer[..];
  }

  /** One more ciphertext byte extends the decryption by that byte less the
      byte recovered before it. */
  lemma {:induction false} DecryptStep(c: seq<byte>, key: seq<byte>, i: nat, prev: seq<byte>)
    requires |key| >= 1 && 1 <= i < |c| && prev == Decrypt(c[..i], key)
    ensures |prev| == i
    ensures Decrypt(c[..i + 1], key) == prev + [SubByte(c[i], prev[i - 1])]
  {
    assert c[..i + 1][..i] == c[..i];
  }

  /** `autokeyDecipher`: reads back its own output (`decryptedText[i-1]`). */
  method AutokeyDecipher(cipherText: seq<byte>, key: seq<byte>, pNonce: Option<seq<byte>>)
    returns (decryptedText: seq<byte>)
    requires |cipherText| >= 1 && |key| >= 1
    ensures |decryptedText| == |cipherText|
    ensures decryptedText[0] == SubByte(cipherText[0], key[0])
    ensures forall i :: 1 <= i < |cipherText| ==>
              decryptedText[i] == SubByte(cipherText[i], decryptedText[i - 1])
    ensures decryptedText == Decrypt(cipherText, key)
  {
    var buffer := new byte[|cipherText|];
    buffer[0] := SubByte(cipherText[0], key[0]);
    assert buffer[..1] == Decrypt(cipherText[..1], key);
    for i := 1 to |cipherText|
      invariant buffer[..i] == Decrypt(cipherText[..i], key)
    {
      ghost var before := buffer[..i];
      buffer[i] := SubByte(cipherText[i], buffer[i - 1]);
      DecryptStep(cipherText, key, i, before);
      assert buffer[..i + 1] == before + [buffer[i]];
    }
    assert cipherText[..|cipherText|] == cipherText;
    decryptedText := buffer[..];
    DecryptAt(cipherText, key, 0);
    forall i | 0 <= i < |cipherText|
      ensures decryptedText[i] == SubByte(cipherText[i], if i == 0 then key[0] else decryptedText[i - 1])
    {
      DecryptAt(cipherText, key, i);
    }
  }

  /** The descriptor's operations: the nonce is accepted and ignored. */
  function EncryptOp(input: seq<byte>, key: seq<byte>, nonce: Option<seq<byte>>): Result<seq<byte>>
    requires |input| >= 1 && |key| >= 1
  {
    Success(Encrypt(input, key))
  }

  function DecryptOp(input: seq<byte>, key: seq<byte>, nonce: Option<seq<byte>>): Result<seq<byte>>
    requires |input| >= 1 && |key| >= 1
  {
    Success(Decrypt(input, key))
  }

  /** `createCipherModule`. */
  function CreateCipherModule(): CipherModule
  {
    CipherModule("AUTOKEY", EncryptOp, DecryptOp)
  }

  lemma ModuleRoundTrips()
    ensures CreateCipherModule().name == "AUTOKEY"
    ensures RoundTrips(CreateCipherModule())
    ensures PreservesLength(CreateCipherModule())
    ensures IgnoresNonce(CreateCipherModule())
  {
    var m := CreateCipherModule();
    forall p, k, n | m.encrypt.requires(p, k, n) && m.encrypt(p, k, n).Success?
      ensures m.decrypt.requires(m.encrypt(p, k, n).value, k, n)
      ensures m.decrypt(m.encrypt(p, k, n).value, k, n) == Success(p)
    {
      RoundTrip(p, k);
    }
  }
}
