/** The Vernam (one-time pad) cipher: each input byte is XORed with the key
    byte at the same position; a key shorter than the input is rejected. */
module Vernam {
  import opened Bits
  import opened CipherInterface

  /** `xorText`: fills a fresh buffer of the input's length, one byte per
      iteration. It reads `key[i]` unchecked, so the key must be long enough. */
  method XorText(data: seq<byte>, key: seq<byte>) returns (result: seq<byte>)
    requires |key| >= |data|
    ensures result == XorBytes(data, key)
  {
    var buffer := new byte[|data|];
    for i := 0 to |data|
      invariant forall j :: 0 <= j < i ==> buffer[j] == XorByte(data[j], key[j])
    {
      buffer[i] := XorByte(data[i], key[i]);
    }
    result := buffer[..];
  }

  /** What `vernamCipher` returns, as a value. */
  function Apply(input: seq<byte>, key: seq<byte>, nonce: Option<seq<byte>>): (r: Result<seq<byte>>)
    ensures r.Failure? <==> |key| < |input|
    ensures r.Failure? ==> r.error == InvalidKey
    ensures r.Success? ==> |r.value| == |input|
  {
    if |key| < |input| then Failure(InvalidKey) else Success(XorBytes(input, key))
  }

  /** `vernamCipher`: the length check, then `xorText`. */
  method VernamCipher(input: seq<byte>, key: seq<byte>, nonce: Option<seq<byte>>)
    returns (r: Result<seq<byte>>)
    ensures r == Apply(input, key, nonce)
  {
    if |key| < |input| {
      return Failure(InvalidKey);
    }
    var cipherText := XorText(input, key);
    r := Success(cipherText);
  }

  /** Enciphering twice with the same key gives back the input, whatever
      nonces are passed. */
  lemma ApplyTwice(p: seq<byte>, key: seq<byte>, n1: Option<seq<byte>>, n2: Option<seq<byte>>)
    requires |key| >= |p|
    ensures Apply(p, key, n1).Success?
    ensures Apply(Apply(p, key, n1).value, key, n2) == Success(p)
  {
    XorBytesSelfInverse(p, key);
  }

  /** Key bytes beyond the input's length and the nonce are never consulted. */
  lemma ApplyUsesKeyPrefix(p: seq<byte>, k1: seq<byte>, k2: seq<byte>, n1: Option<seq<byte>>, n2: Option<seq<byte>>)
    requires |k1| >= |p| && |k2| >= |p|
    requires k1[..|p|] == k2[..|p|]
    ensures Apply(p, k1, n1) == Apply(p, k2, n2)
  {
    XorBytesUsesPadPrefix(p, k1, k2);
  }

  /** "HI" under the key [1, 2]. */
  lemma Example()
    ensures Apply([0x48, 0x49], [0x01, 0x02], None) == Success([0x49, 0x4B])
    ensures Apply([0x49, 0x4B], [0x01, 0x02], None) == Success([0x48, 0x49])
  {
    var c := XorBytes([0x48, 0x49], [0x01, 0x02]);
    assert c[0] == 0x49 && c[1] == 0x4B;
    assert c == [0x49, 0x4B];
    XorBytesSelfInverse([0x48, 0x49], [0x01, 0x02]);
  }

  /** `createCipherModule`: one function registered for both directions. */
  function CreateCipherModule(): CipherModule
  {
    CipherModule("VERNAM", Apply, Apply)
  }

  lemma ModuleRoundTrips()
    ensures RoundTrips(CreateCipherModule())
    ensures PreservesLength(CreateCipherModule())
    ensures IgnoresNonce(CreateCipherModule())
  {
    var m := CreateCipherModule();
    forall p, k, n | m.encrypt.requires(p, k, n) && m.encrypt(p, k, n).Success?
      ensures m.decrypt(m.encrypt(p, k, n).value, k, n) == Success(p)
    {
      ApplyTwice(p, k, n, n);
    }
  }

  lemma ModuleIsSymmetric()
    ensures CreateCipherModule().name == "VERNAM"
    ensures CreateCipherModule().encrypt == CreateCipherModule().decrypt
  {
  }
}
